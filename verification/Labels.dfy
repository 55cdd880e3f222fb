/**
 Coordinate labels: the dotted spelling of a tree path, and dictionaries in which a later entry replaces an earlier.
 */
module Labels {
  import opened Wrappers

  const METHOD_SECTIONS: seq<string> :=
    ["segments", "positions", "sites", "featurizers", "params", "code", "reads", "writes", "intervened_models",
     "metrics", "train", "save"]

  function UpToBracket(s: string): string {
    if s == "" || s[0] == '[' then "" else [s[0]] + UpToBracket(s[1..])
  }

  function JoinDots(parts: seq<string>): string {
    if parts == [] then "" else if |parts| == 1 then parts[0]
    else JoinDots(parts[..|parts| - 1]) + "." + parts[|parts| - 1]
  }

  /** A tree path as its section-rooted dotted spelling: the method group is not spelled. */
  function Dotted(path: seq<string>): string {
    if |path| >= 2 && path[0] == "method" && UpToBracket(path[1]) in METHOD_SECTIONS then JoinDots(path[1..])
    else JoinDots(path)
  }

  lemma {:induction false} JoinedByDots(a: seq<string>, b: seq<string>)
    requires a != [] && b != []
    ensures JoinDots([a[0]]) == a[0] && JoinDots(a + b) == JoinDots(a) + "." + JoinDots(b)
    decreases |b|
  {
    var n := |b| - 1;
    assert (a + b)[..|a + b| - 1] == a + b[..n] && (a + b)[|a + b| - 1] == b[n];
    if n == 0 {
      assert a + b[..n] == a;
    } else {
      JoinedByDots(a, b[..n]);
      Regroup(JoinDots(a), ".", JoinDots(b[..n]), b[n]);
    }
  }

  lemma Regroup(a: string, dot: string, b: string, c: string)
    ensures a + dot + b + dot + c == a + dot + (b + dot + c)
  {
  }

  /** A path inside a method section is spelled from that section on, any other in full. */
  lemma SectionRooted(section: string, rest: seq<string>)
    ensures var path := ["method", section] + rest;
            Dotted(path) ==
              if UpToBracket(section) in
                   ["segments", "positions", "sites", "featurizers", "params", "code", "reads", "writes",
                    "intervened_models", "metrics", "train", "save"]
              then JoinDots([section] + rest) else JoinDots(path)
    ensures Dotted(["axes", section]) == "axes" + "." + section
  {
    assert (["method", section] + rest)[1..] == [section] + rest;
    JoinedByDots(["axes"], [section]);
    assert ["axes"] + [section] == ["axes", section];
  }

  // ---------------------------------------------------------------- dictionaries filled entry by entry

  function Dict<T>(entries: seq<(string, T)>, n: nat): map<string, T>
    requires n <= |entries|
  {
    if n == 0 then map[] else Dict(entries, n - 1)[entries[n - 1].0 := entries[n - 1].1]
  }

  /** A later entry of the first n has the same label. */
  predicate Shadowed<T>(entries: seq<(string, T)>, n: nat, i: nat)
    requires i < n <= |entries|
  {
    exists j {:trigger entries[j]} :: i < j < n && entries[j].0 == entries[i].0
  }

  lemma {:induction false} DictPrefix<T>(a: seq<(string, T)>, both: seq<(string, T)>, n: nat)
    requires n <= |a| && a <= both
    ensures Dict(both, n) == Dict(a, n)
    decreases n
  {
    if n > 0 {
      DictPrefix(a, both, n - 1);
    }
  }

  /** Filling with one list and then another is filling with both, the second winning. */
  lemma {:induction false} DictConcat<T>(a: seq<(string, T)>, b: seq<(string, T)>, both: seq<(string, T)>, n: nat,
                                         m: nat)
    requires n <= |b| && both == a + b && m == |a| + n
    ensures Dict(both, m) == Dict(a, |a|) + Dict(b, n)
    decreases n
  {
    if n == 0 {
      DictPrefix(a, both, |a|);
    } else {
      DictConcat(a, b, both, n - 1, m - 1);
      assert both[m - 1] == b[n - 1];
    }
  }

  lemma DictTogether<T>(a: seq<(string, T)>, b: seq<(string, T)>, n: nat, m: nat)
    requires n == |a| && m == |b|
    ensures Dict(a + b, |a + b|) == Dict(a, n) + Dict(b, m)
  {
    DictConcat(a, b, a + b, m, |a + b|);
  }

  /** The last entry of a label is what the dictionary holds. */
  lemma {:induction false} DictAt<T>(entries: seq<(string, T)>, n: nat, i: nat)
    requires i < n <= |entries| && !Shadowed(entries, n, i)
    ensures entries[i].0 in Dict(entries, n) && Dict(entries, n)[entries[i].0] == entries[i].1
    decreases n
  {
    if i < n - 1 {
      assert entries[n - 1].0 != entries[i].0;
      assert !Shadowed(entries, n - 1, i);
      DictAt(entries, n - 1, i);
    }
  }

  lemma {:induction false} LastOf<T>(entries: seq<(string, T)>, n: nat, id: string) returns (i: nat)
    requires n <= |entries| && id in Dict(entries, n)
    ensures i < n && entries[i].0 == id && !Shadowed(entries, n, i)
    decreases n
  {
    if entries[n - 1].0 == id {
      i := n - 1;
    } else {
      i := LastOf(entries, n - 1, id);
    }
  }

  predicate SameLabels<T>(a: seq<(string, T)>, b: seq<(string, T)>) {
    |a| == |b| && forall i {:trigger a[i]} {:trigger b[i]} :: 0 <= i < |a| ==> a[i].0 == b[i].0
  }

  predicate AgreeAt<T(==)>(a: seq<(string, T)>, b: seq<(string, T)>, i: nat)
    requires i < |a| == |b|
  {
    Shadowed(a, |a|, i) || a[i].1 == b[i].1
  }

  /** Over the same labels two dictionaries are equal exactly when their unshadowed entries agree. */
  lemma SameDict<T>(a: seq<(string, T)>, b: seq<(string, T)>)
    requires SameLabels(a, b)
    ensures Dict(a, |a|) == Dict(b, |b|) <==> forall i {:trigger AgreeAt(a, b, i)} :: 0 <= i < |a| ==> AgreeAt(a, b, i)
  {
    var da, db := Dict(a, |a|), Dict(b, |b|);
    forall i | 0 <= i < |a| ensures Shadowed(a, |a|, i) == Shadowed(b, |b|, i) {
      if j :| i < j < |a| && a[j].0 == a[i].0 {
        assert b[j].0 == b[i].0;
      }
      if j :| i < j < |b| && b[j].0 == b[i].0 {
        assert a[j].0 == a[i].0;
      }
    }
    if da == db {
      forall i | 0 <= i < |a| ensures AgreeAt(a, b, i) {
        if !Shadowed(a, |a|, i) {
          DictAt(a, |a|, i);
          DictAt(b, |b|, i);
        }
      }
    }
    if forall i {:trigger AgreeAt(a, b, i)} :: 0 <= i < |a| ==> AgreeAt(a, b, i) {
      forall id | id in da ensures id in db && da[id] == db[id] {
        var i := LastOf(a, |a|, id);
        DictAt(a, |a|, i);
        DictAt(b, |b|, i);
        assert AgreeAt(a, b, i);
      }
      forall id | id in db ensures id in da {
        var i := LastOf(b, |b|, id);
        DictAt(a, |a|, i);
      }
      SameMap(da, db);
    }
  }
}
