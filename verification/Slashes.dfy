/** Strings cut at and joined with "/": flat node ids and POSIX paths. */
module Slashes {

  type Parts = seq<string>

  ghost predicate SlashFree(p: Parts) {
    forall k, c :: k in p && c in k ==> c != '/'
  }

  /** Python's `s.split("/")`. */
  function Split(s: string): (p: Parts)
    ensures |p| > 0 && SlashFree(p)
  {
    if s == "" then [""]
    else if s[0] == '/' then [""] + Split(s[1..])
    else
      var rest := Split(s[1..]);
      [[s[0]] + rest[0]] + rest[1..]
  }

  /** Python's `"/".join(p)`. */
  function Join(p: Parts): string {
    if p == [] then "" else if |p| == 1 then p[0] else p[0] + "/" + Join(p[1..])
  }

  lemma {:induction false} SplitConcat(a: string, b: string)
    ensures Split(a + "/" + b) == Split(a) + Split(b)
  {
    var s := a + "/" + b;
    if a == "" {
      assert s[1..] == b;
    } else {
      assert s[1..] == a[1..] + "/" + b;
      SplitConcat(a[1..], b);
    }
  }

  lemma {:induction false} SplitPlain(s: string)
    requires '/' !in s
    ensures Split(s) == [s]
  {
    if s != "" {
      SplitPlain(s[1..]);
      assert [s[0]] + s[1..] == s;
    }
  }

  /** Joining loses nothing when no part contains the separator. */
  lemma {:induction false} SplitJoin(p: Parts)
    requires |p| > 0 && SlashFree(p)
    ensures Split(Join(p)) == p
  {
    assert p[0] in p;
    SplitPlain(p[0]);
    if |p| > 1 {
      SplitJoin(p[1..]);
      SplitConcat(p[0], Join(p[1..]));
    }
  }

  lemma {:induction false} JoinInjective(p: Parts, q: Parts)
    requires |p| > 0 && |q| > 0 && SlashFree(p) && SlashFree(q) && Join(p) == Join(q)
    ensures p == q
  {
    SplitJoin(p);
    SplitJoin(q);
  }
}
