/** The order of strings and of lists of strings used by Python's comparisons. */
module StringOrder {

  /** Strings compare by code point, a prefix first. */
  predicate Precedes(a: string, b: string) {
    |b| > 0 && (|a| == 0 || a[0] < b[0] || (a[0] == b[0] && Precedes(a[1..], b[1..])))
  }

  lemma {:induction false} PrecedesTransitive(a: string, b: string, c: string)
    requires Precedes(a, b) && Precedes(b, c)
    ensures Precedes(a, c)
  {
    if |a| > 0 && a[0] == b[0] && b[0] == c[0] {
      PrecedesTransitive(a[1..], b[1..], c[1..]);
    }
  }

  lemma {:induction false} PrecedesTotal(a: string, b: string)
    ensures a == b || Precedes(a, b) || Precedes(b, a)
    ensures !(Precedes(a, b) && Precedes(b, a))
  {
    if |a| > 0 && |b| > 0 {
      PrecedesTotal(a[1..], b[1..]);
      if a[0] == b[0] && a[1..] == b[1..] {
        assert a == [a[0]] + a[1..] && b == [b[0]] + b[1..];
      }
    }
  }

  /** One string comes first at its first difference from another, or as its prefix. */
  ghost predicate DiffersAt(a: string, b: string, k: nat) {
    k <= |a| && k < |b| && a[..k] == b[..k] && (k == |a| || a[k] < b[k])
  }

  lemma {:induction false} PrecedesIff(a: string, b: string)
    ensures Precedes(a, b) <==> exists k :: DiffersAt(a, b, k)
  {
    if Precedes(a, b) {
      var k := PrecedesWhere(a, b);
    }
    if k :| DiffersAt(a, b, k) {
      DifferencePrecedes(a, b, k);
    }
  }

  lemma {:induction false} PrecedesWhere(a: string, b: string) returns (k: nat)
    requires Precedes(a, b)
    ensures DiffersAt(a, b, k)
  {
    k := 0;
    if |a| > 0 && a[0] == b[0] {
      var n := PrecedesWhere(a[1..], b[1..]);
      k := n + 1;
      assert a[..k] == [a[0]] + a[1..][..n] && b[..k] == [b[0]] + b[1..][..n];
    }
  }

  lemma {:induction false} DifferencePrecedes(a: string, b: string, k: nat)
    requires DiffersAt(a, b, k)
    ensures Precedes(a, b)
  {
    if k > 0 {
      assert a[0] == a[..k][0] == b[..k][0] == b[0];
      assert a[1..][..k - 1] == a[..k][1..] && b[1..][..k - 1] == b[..k][1..];
      DifferencePrecedes(a[1..], b[1..], k - 1);
    }
  }

  /** Lists of strings compare component by component, a prefix first. */
  predicate PathBefore(a: seq<string>, b: seq<string>) {
    |b| > 0 && (|a| == 0 || Precedes(a[0], b[0]) || (a[0] == b[0] && PathBefore(a[1..], b[1..])))
  }

  lemma {:induction false} PathBeforeTransitive(a: seq<string>, b: seq<string>, c: seq<string>)
    requires PathBefore(a, b) && PathBefore(b, c)
    ensures PathBefore(a, c)
  {
    if |a| > 0 {
      PrecedesTotal(b[0], b[0]);
      if a[0] == b[0] && b[0] == c[0] {
        PathBeforeTransitive(a[1..], b[1..], c[1..]);
      } else if Precedes(a[0], b[0]) && Precedes(b[0], c[0]) {
        PrecedesTransitive(a[0], b[0], c[0]);
      }
    }
  }

  lemma {:induction false} PathBeforeTotal(a: seq<string>, b: seq<string>)
    ensures a == b || PathBefore(a, b) || PathBefore(b, a)
    ensures !(PathBefore(a, b) && PathBefore(b, a))
  {
    if |a| > 0 && |b| > 0 {
      PrecedesTotal(a[0], b[0]);
      PathBeforeTotal(a[1..], b[1..]);
      if a[0] == b[0] && a[1..] == b[1..] {
        assert a == [a[0]] + a[1..] && b == [b[0]] + b[1..];
      }
    }
  }

  lemma {:induction false} PrefixBefore(a: seq<string>, b: seq<string>)
    requires a < b
    ensures PathBefore(a, b)
  {
    if |a| > 0 {
      assert a[1..] < b[1..];
      PrefixBefore(a[1..], b[1..]);
    }
  }

  ghost predicate Ascending(s: seq<seq<string>>) {
    forall i, j :: 0 <= i < j < |s| ==> PathBefore(s[i], s[j])
  }

  /** Python's `sorted` on a set of lists of strings. */
  method Sorted(paths: set<seq<string>>) returns (s: seq<seq<string>>)
    ensures Ascending(s) && forall p :: p in s <==> p in paths
  {
    s := [];
    var rest := paths;
    while rest != {}
      invariant rest <= paths && Ascending(s)
      invariant forall p :: p in s <==> p in paths && p !in rest
    {
      var p :| p in rest;
      var i := 0;
      while i < |s| && PathBefore(s[i], p)
        invariant 0 <= i <= |s|
        invariant forall j :: 0 <= j < i ==> PathBefore(s[j], p)
      {
        i := i + 1;
      }
      InsertAscending(s, p, i);
      ghost var before := s;
      assert before == before[..i] + before[i..];
      s := s[..i] + [p] + s[i..];
      rest := rest - {p};
      assert forall q :: q in s <==> q == p || q in before;
    }
  }

  lemma {:induction false} InsertAscending(s: seq<seq<string>>, p: seq<string>, i: nat)
    requires Ascending(s) && i <= |s| && p !in s
    requires forall j :: 0 <= j < i ==> PathBefore(s[j], p)
    requires i < |s| ==> !PathBefore(s[i], p)
    ensures Ascending(s[..i] + [p] + s[i..])
  {
    forall j | i <= j < |s| ensures PathBefore(p, s[j]) {
      assert s[i] in s;
      PathBeforeTotal(p, s[i]);
      if j > i {
        PathBeforeTransitive(p, s[i], s[j]);
      }
    }
  }
}
