/** Grouping prepared rows into cohorts that can be scored together, and keeping every example inside one split. */
module Cohorts {
  import opened Decimals
  import opened Sequences
  import opened Wrappers

  datatype Row = Row(exampleId: Option<string>, counterfactualId: Option<string>, split: string,
                     prefixCondition: string,
                     outputLength: nat, counterfactualLength: Option<nat>, body: Prepared)

  /** The example and the donor a row names, in the order they are looked at. */
  function Identities(row: Row): seq<string> {
    (if row.exampleId.Some? then [row.exampleId.value] else [])
    + (if row.counterfactualId.Some? then [row.counterfactualId.value] else [])
  }

  function DonorLength(row: Row): nat {
    if row.counterfactualLength.Some? then row.counterfactualLength.value else 0
  }

  function CohortKey(row: Row): string {
    row.prefixCondition + "_" + row.split + "_" + Decimal(row.outputLength) + "_" + Decimal(DonorLength(row))
  }

  // ---------------------------------------------------------------- the specification

  predicate Appears(rows: seq<Row>, n: nat, id: string)
    requires n <= |rows|
  {
    exists i :: 0 <= i < n && id in Identities(rows[i])
  }

  /** No example or donor occurs in two splits. */
  predicate SplitsHold(rows: seq<Row>, n: nat)
    requires n <= |rows|
  {
    forall i, j, id {:trigger id in Identities(rows[i]), id in Identities(rows[j])} ::
      0 <= i < n && 0 <= j < n && id in Identities(rows[i]) && id in Identities(rows[j]) ==>
        rows[i].split == rows[j].split
  }

  predicate Names(row: Row, id: string) {
    row.exampleId == Some(id) || row.counterfactualId == Some(id)
  }

  lemma IdentitiesAreNamed(row: Row, id: string)
    ensures id in Identities(row) <==> Names(row, id)
  {
  }

  /** What keeping to splits means: rows that name an example, as their own or as their donor, are of one split. */
  lemma SplitsHoldMeans(rows: seq<Row>)
    ensures SplitsHold(rows, |rows|) <==>
              forall i, j, id {:trigger Names(rows[i], id), Names(rows[j], id)} ::
                0 <= i < |rows| && 0 <= j < |rows| && Names(rows[i], id) && Names(rows[j], id) ==>
                  rows[i].split == rows[j].split
  {
    forall i, id | 0 <= i < |rows| ensures id in Identities(rows[i]) <==> Names(rows[i], id) {
      IdentitiesAreNamed(rows[i], id);
    }
    if SplitsHold(rows, |rows|) {
      forall i, j, id {:trigger Names(rows[i], id), Names(rows[j], id)}
        | 0 <= i < |rows| && 0 <= j < |rows| && Names(rows[i], id) && Names(rows[j], id)
        ensures rows[i].split == rows[j].split
      {
        assert id in Identities(rows[i]) && id in Identities(rows[j]);
      }
    }
  }

  /** The rows of one cohort, in the order given. */
  function Members(rows: seq<Row>, n: nat, key: string): seq<Row>
    requires n <= |rows|
  {
    if n == 0 then [] else Members(rows, n - 1, key) + if CohortKey(rows[n - 1]) == key then [rows[n - 1]] else []
  }

  function Keys(rows: seq<Row>, n: nat): set<string>
    requires n <= |rows|
  {
    set i | 0 <= i < n :: CohortKey(rows[i])
  }

  function Cohorts(rows: seq<Row>, n: nat): map<string, seq<Row>>
    requires n <= |rows|
  {
    map key | key in Keys(rows, n) :: Members(rows, n, key)
  }

  // ---------------------------------------------------------------- the loop

  /** What is known of the splits after n rows and the first m identities of the next. */
  ghost predicate Known(splits: map<string, string>, rows: seq<Row>, n: nat)
    requires n <= |rows|
  {
    && (forall id {:trigger splits[id]} :: id in splits ==> Appears(rows, n, id))
    && (forall i, id {:trigger id in Identities(rows[i])} :: 0 <= i < n && id in Identities(rows[i]) ==>
          id in splits && splits[id] == rows[i].split)
  }

  /** The first k identities of a row have been noted under its split, and none of them belongs to another one. */
  ghost predicate Noted(splits: map<string, string>, noted: map<string, string>, ids: seq<string>, split: string,
                        k: nat)
    requires k <= |ids|
  {
    && (forall id {:trigger id in noted} :: id in noted <==> id in splits || id in ids[..k])
    && (forall id {:trigger noted[id]} :: id in noted ==> noted[id] == if id in splits then splits[id] else split)
    && (forall id {:trigger splits[id]} :: id in ids[..k] && id in splits ==> splits[id] == split)
  }

  lemma NoteOneMore(splits: map<string, string>, noted: map<string, string>, ids: seq<string>, split: string, k: nat)
    requires k < |ids| && Noted(splits, noted, ids, split, k) && (ids[k] in noted ==> noted[ids[k]] == split)
    ensures Noted(splits, noted[ids[k] := split], ids, split, k + 1)
  {
    TakeOneMore(ids, k);
  }

  /** An identity noted under another split belongs to an earlier row of that split. */
  lemma Clash(splits: map<string, string>, noted: map<string, string>, rows: seq<Row>, n: nat, k: nat)
    requires n < |rows| && Known(splits, rows, n) && k < |Identities(rows[n])|
    requires Noted(splits, noted, Identities(rows[n]), rows[n].split, k)
    requires Identities(rows[n])[k] in noted && noted[Identities(rows[n])[k]] != rows[n].split
    ensures !SplitsHold(rows, n + 1)
  {
    var id := Identities(rows[n])[k];
    var i :| 0 <= i < n && id in Identities(rows[i]);
    assert id in Identities(rows[n]);
  }

  /** With all its identities noted the row is known too. */
  lemma NotedIsKnown(splits: map<string, string>, noted: map<string, string>, rows: seq<Row>, n: nat)
    requires n < |rows| && Known(splits, rows, n) && SplitsHold(rows, n)
    requires Noted(splits, noted, Identities(rows[n]), rows[n].split, |Identities(rows[n])|)
    ensures SplitsHold(rows, n + 1) && Known(noted, rows, n + 1)
  {
    var ids := Identities(rows[n]);
    TakeAll(ids);
    forall id | id in noted ensures Appears(rows, n + 1, id) {
      if id in splits {
        assert Appears(rows, n, id);
      } else {
        assert id in Identities(rows[n]);
      }
    }
    forall i, id {:trigger id in Identities(rows[i])} | 0 <= i < n + 1 && id in Identities(rows[i])
      ensures id in noted && noted[id] == rows[i].split
    {
    }
  }

  /** Record a row's identities under its split; None when one already belongs to another split. */
  method NoteRow(splits: map<string, string>, rows: seq<Row>, n: nat) returns (r: Option<map<string, string>>)
    requires n < |rows| && Known(splits, rows, n) && SplitsHold(rows, n)
    ensures r.Some? <==> SplitsHold(rows, n + 1)
    ensures r.Some? ==> Known(r.value, rows, n + 1)
  {
    var ids, split, noted := Identities(rows[n]), rows[n].split, splits;
    for k := 0 to |ids|
      invariant Noted(splits, noted, ids, split, k)
    {
      var id := ids[k];
      if id in noted && noted[id] != split {
        Clash(splits, noted, rows, n, k);
        return None;
      }
      NoteOneMore(splits, noted, ids, split, k);
      noted := noted[id := split];
    }
    NotedIsKnown(splits, noted, rows, n);
    r := Some(noted);
  }

  method SequenceCohorts(rows: seq<Row>) returns (r: Option<map<string, seq<Row>>>)
    ensures r == if SplitsHold(rows, |rows|) then Some(Cohorts(rows, |rows|)) else None
  {
    var result: map<string, seq<Row>> := map[];
    var splits: map<string, string> := map[];
    for n := 0 to |rows|
      invariant result == Cohorts(rows, n) && SplitsHold(rows, n) && Known(splits, rows, n)
    {
      var noted := NoteRow(splits, rows, n);
      if noted == None {
        return None;
      }
      splits := noted.value;
      var key := CohortKey(rows[n]);
      OneMoreRow(rows, n);
      result := WithRow(result, key, rows[n]);
    }
    r := Some(result);
  }

  lemma {:induction false} NobodyYet(rows: seq<Row>, n: nat, key: string)
    requires n <= |rows| && key !in Keys(rows, n)
    ensures Members(rows, n, key) == []
  {
    if n > 0 {
      assert CohortKey(rows[n - 1]) in Keys(rows, n) && Keys(rows, n - 1) <= Keys(rows, n);
      NobodyYet(rows, n - 1, key);
    }
  }

  /** A cohort list with one more row under a key. */
  function WithRow(cohorts: map<string, seq<Row>>, key: string, row: Row): map<string, seq<Row>> {
    cohorts[key := (if key in cohorts then cohorts[key] else []) + [row]]
  }

  lemma MembersStep(rows: seq<Row>, n: nat, key: string)
    requires n < |rows|
    ensures key == CohortKey(rows[n]) ==> Members(rows, n + 1, key) == Members(rows, n, key) + [rows[n]]
    ensures key != CohortKey(rows[n]) ==> Members(rows, n + 1, key) == Members(rows, n, key)
  {
  }

  lemma KeysStep(rows: seq<Row>, n: nat)
    requires n < |rows|
    ensures Keys(rows, n + 1) == Keys(rows, n) + {CohortKey(rows[n])}
  {
  }

  lemma OneMoreRow(rows: seq<Row>, n: nat)
    requires n < |rows|
    ensures Cohorts(rows, n + 1) == WithRow(Cohorts(rows, n), CohortKey(rows[n]), rows[n])
  {
    var key := CohortKey(rows[n]);
    KeysStep(rows, n);
    if key !in Keys(rows, n) {
      NobodyYet(rows, n, key);
    }
    var after, want := WithRow(Cohorts(rows, n), key, rows[n]), Cohorts(rows, n + 1);
    forall k | k in want ensures want[k] == after[k] {
      MembersStep(rows, n, k);
    }
    SameMap(want, after);
  }

  // ---------------------------------------------------------------- a partition

  lemma {:induction false} MembersGrow(rows: seq<Row>, m: nat, n: nat, key: string)
    requires m <= n <= |rows|
    ensures Members(rows, m, key) <= Members(rows, n, key)
  {
    if m < n {
      MembersGrow(rows, m, n - 1, key);
    }
  }

  /** Every row is in the cohort of its own key, behind exactly the earlier rows of that key. */
  lemma EachRowHasItsPlace(rows: seq<Row>, i: nat)
    requires i < |rows|
    ensures CohortKey(rows[i]) in Cohorts(rows, |rows|)
    ensures Members(rows, i, CohortKey(rows[i])) + [rows[i]] <= Cohorts(rows, |rows|)[CohortKey(rows[i])]
  {
    MembersGrow(rows, i + 1, |rows|, CohortKey(rows[i]));
    assert CohortKey(rows[i]) in Keys(rows, |rows|);
  }

  /** Every place in a cohort is some row's, of that key: nothing is added, lost or repeated. */
  lemma {:induction false} EachPlaceHasItsRow(rows: seq<Row>, n: nat, key: string, p: nat) returns (i: nat)
    requires n <= |rows| && p < |Members(rows, n, key)|
    ensures i < n && CohortKey(rows[i]) == key && Members(rows, n, key)[p] == rows[i] && |Members(rows, i, key)| == p
  {
    if p < |Members(rows, n - 1, key)| {
      i := EachPlaceHasItsRow(rows, n - 1, key, p);
    } else {
      i := n - 1;
    }
  }

  // ---------------------------------------------------------------- keys

  lemma NoUnderscore(n: nat)
    ensures '_' !in Decimal(n)
  {
    DecimalRoundTrip(n);
  }

  /** The last underscore parts a text in one way. */
  lemma LastUnderscore(a: string, b: string, c: string, d: string)
    requires a + "_" + b == c + "_" + d && '_' !in b && '_' !in d
    ensures a == c && b == d
  {
    var s, t := a + "_" + b, c + "_" + d;
    assert s[|a|] == '_' && t[|c|] == '_';
    if |b| == |d| {
      assert a == s[..|a|] && c == t[..|c|] && b == s[|a| + 1..] && d == t[|c| + 1..];
    }
  }

  /** Under a legal prefix condition, rows share a key exactly when they share all four grouping fields. */
  lemma KeysGroupExactly(a: Row, b: Row)
    requires a.prefixCondition in PREFIX_CONDITIONS && b.prefixCondition in PREFIX_CONDITIONS
    ensures CohortKey(a) == CohortKey(b) <==>
            a.prefixCondition == b.prefixCondition && a.split == b.split
            && a.outputLength == b.outputLength && DonorLength(a) == DonorLength(b)
  {
    if CohortKey(a) == CohortKey(b) {
      var a1, b1 := a.prefixCondition + "_" + a.split, b.prefixCondition + "_" + b.split;
      NoUnderscore(a.outputLength);
      NoUnderscore(b.outputLength);
      NoUnderscore(DonorLength(a));
      NoUnderscore(DonorLength(b));
      LastUnderscore(a1 + "_" + Decimal(a.outputLength), Decimal(DonorLength(a)),
                     b1 + "_" + Decimal(b.outputLength), Decimal(DonorLength(b)));
      LastUnderscore(a1, Decimal(a.outputLength), b1, Decimal(b.outputLength));
      DecimalInjective(DonorLength(a), DonorLength(b));
      DecimalInjective(a.outputLength, b.outputLength);
      LegalPrefix(a.prefixCondition, a.split, b.prefixCondition, b.split);
    }
  }

  lemma LegalPrefix(c: string, s: string, d: string, t: string)
    requires c in PREFIX_CONDITIONS && d in PREFIX_CONDITIONS && c + "_" + s == d + "_" + t
    ensures c == d && s == t
  {
    assert (c + "_" + s)[0] == c[0] && (d + "_" + t)[0] == d[0];
    assert s == (c + "_" + s)[|c| + 1..] && t == (d + "_" + t)[|d| + 1..];
  }

  /** Other conditions could share a key: the separator may occur in either field. */
  lemma OtherConditionsCollide(body: Prepared, n: nat)
    ensures var a := Row(None, None, "b_c", "a", n, None, body);
            var b := Row(None, None, "c", "a_b", n, None, body);
            CohortKey(a) == CohortKey(b) && a.split != b.split
  {
    assert "a" + "_" + "b_c" == "a_b" + "_" + "c";
  }
}
