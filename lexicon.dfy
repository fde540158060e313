/** Matching a fixed list of phrases (a lexicon) against a text, the way the
    classifier's `for term in lexicon: if term in text` loops and its
    `any(term in text for term in lexicon)` expressions do. */
module Lexicon {
  import opened Text

  /** Number of entries of `lex` that occur in `text`; each entry counts once
      however often it occurs. Defined from the end so that a loop over
      `lex[..i]` extends it one entry at a time. */
  function CountIn(lex: seq<string>, text: string): (n: nat)
    ensures n <= |lex|
  {
    if lex == [] then 0
    else CountIn(lex[..|lex| - 1], text) + (if Contains(text, lex[|lex| - 1]) then 1 else 0)
  }

  /** `any(term in text for term in lex)`. */
  function AnyIn(lex: seq<string>, text: string): (b: bool)
    ensures b <==> exists i :: 0 <= i < |lex| && Contains(text, lex[i])
  {
    if lex == [] then false
    else Contains(text, lex[0]) || AnyIn(lex[1..], text)
  }

  /** The entries of `lex` that occur in `text`. */
  function Matched(lex: seq<string>, text: string): set<string> {
    set e | e in lex && Contains(text, e)
  }

  /** No entry is listed twice. */
  predicate Distinct(lex: seq<string>) {
    forall i, j :: 0 <= i < j < |lex| ==> lex[i] != lex[j]
  }

  /** The entries at positions `lo` to `hi - 1` are not repeated later on. */
  predicate DistinctFrom(lex: seq<string>, lo: int, hi: int) {
    forall i, j :: lo <= i < hi && 0 <= i < j < |lex| ==> lex[i] != lex[j]
  }

  /** Distinctness checked in consecutive blocks of positions. */
  lemma DistinctInBlocks(lex: seq<string>, m: int, n: int)
    requires DistinctFrom(lex, 0, m) && DistinctFrom(lex, m, n) && DistinctFrom(lex, n, |lex|)
    ensures Distinct(lex)
  {
  }

  /** Two lexicons without distinct entries in common placed one after the other. */
  lemma DistinctAppend(a: seq<string>, b: seq<string>)
    requires Distinct(a) && Distinct(b)
    requires forall i, j :: 0 <= i < |a| && 0 <= j < |b| ==> a[i] != b[j]
    ensures Distinct(a + b)
  {
    forall i, j | 0 <= i < j < |a + b| ensures (a + b)[i] != (a + b)[j] {
      if j < |a| {
        assert (a + b)[i] == a[i] && (a + b)[j] == a[j];
      } else if i < |a| {
        assert (a + b)[i] == a[i] && (a + b)[j] == b[j - |a|];
      } else {
        assert (a + b)[i] == b[i - |a|] && (a + b)[j] == b[j - |a|];
      }
    }
  }

  /** With distinct entries, the count is the number of distinct matching
      entries: repeated occurrences of one entry in the text count once. */
  lemma {:induction false} CountIsMatched(lex: seq<string>, text: string)
    requires Distinct(lex)
    ensures CountIn(lex, text) == |Matched(lex, text)|
  {
    if lex == [] {
      assert Matched(lex, text) == {};
    } else {
      var init, last := lex[..|lex| - 1], lex[|lex| - 1];
      assert lex == init + [last];
      CountIsMatched(init, text);
      assert last !in init;
      if Contains(text, last) {
        assert Matched(lex, text) == Matched(init, text) + {last};
      } else {
        assert Matched(lex, text) == Matched(init, text);
      }
    }
  }

  /** The count is monotone in the text: every entry found in `t` is also found
      in `u`, so `u` matches at least as many entries. */
  lemma {:induction false} CountMonotone(lex: seq<string>, t: string, u: string)
    requires forall p :: Contains(t, p) ==> Contains(u, p)
    ensures CountIn(lex, t) <= CountIn(lex, u)
  {
    if lex != [] { CountMonotone(lex[..|lex| - 1], t, u); }
  }

  /** Appending text never lowers the count. */
  lemma CountGrowsWithText(lex: seq<string>, t: string, more: string)
    ensures CountIn(lex, t) <= CountIn(lex, t + more)
  {
    forall p | Contains(t, p) ensures Contains(t + more, p) {
      ContainsAppend(t, more, p);
    }
    CountMonotone(lex, t, t + more);
  }

  /** Some entry matches exactly when the count is positive. */
  lemma {:induction false} AnyIffCount(lex: seq<string>, text: string)
    ensures AnyIn(lex, text) <==> CountIn(lex, text) > 0
  {
    if lex != [] {
      var init := lex[..|lex| - 1];
      AnyIffCount(init, text);
      if CountIn(init, text) > 0 {
        var i :| 0 <= i < |init| && Contains(text, init[i]);
        assert lex[i] == init[i];
      }
    }
  }

  /** Extending a lexicon one entry at a time, as a loop over its prefixes does. */
  lemma CountStep(lex: seq<string>, i: nat, text: string)
    requires i < |lex|
    ensures CountIn(lex[..i + 1], text)
         == CountIn(lex[..i], text) + (if Contains(text, lex[i]) then 1 else 0)
  {
    assert lex[..i + 1][..i] == lex[..i];
  }

  /** Counting over two lexicons one after the other. */
  lemma {:induction false} CountAppend(a: seq<string>, b: seq<string>, text: string)
    ensures CountIn(a + b, text) == CountIn(a, text) + CountIn(b, text)
  {
    if b != [] {
      var ab := a + b;
      assert ab[..|ab| - 1] == a + b[..|b| - 1];
      CountAppend(a, b[..|b| - 1], text);
    } else {
      assert a + b == a;
    }
  }

  /** A set has at least two elements exactly when it holds two different ones. */
  lemma TwoElements<T>(s: set<T>)
    ensures |s| >= 2 <==> exists x, y :: x in s && y in s && x != y
  {
    if |s| >= 2 {
      var x :| x in s;
      assert |s - {x}| == |s| - 1;
      var y :| y in s - {x};
      assert x in s && y in s && x != y;
    }
    if x, y :| x in s && y in s && x != y {
      assert {x, y} <= s;
      assert |{x, y}| == 2;
      SubsetCard({x, y}, s);
    }
  }

  lemma SubsetCard<T>(a: set<T>, b: set<T>)
    requires a <= b
    ensures |a| <= |b|
  {
    assert b == a + (b - a);
  }

  /** At least two entries match exactly when two different entries occur in the text. */
  lemma TwoMatched(lex: seq<string>, text: string)
    ensures |Matched(lex, text)| >= 2 <==>
      exists p, q :: p in lex && q in lex && p != q && Contains(text, p) && Contains(text, q)
  {
    var m := Matched(lex, text);
    TwoElements(m);
    if |m| >= 2 {
      var p, q :| p in m && q in m && p != q;
      assert p in lex && q in lex && Contains(text, p) && Contains(text, q);
    }
    if p, q :| p in lex && q in lex && p != q && Contains(text, p) && Contains(text, q) {
      assert p in m && q in m;
    }
  }

  /** `any` over a prefix extended by one entry, as a loop with `break` sees it. */
  lemma AnyStep(lex: seq<string>, i: nat, text: string)
    requires i < |lex|
    ensures AnyIn(lex[..i + 1], text) == (AnyIn(lex[..i], text) || Contains(text, lex[i]))
  {
    var a, b := lex[..i + 1], lex[..i];
    if AnyIn(a, text) && !Contains(text, lex[i]) {
      var j :| 0 <= j < |a| && Contains(text, a[j]);
      assert j < i && b[j] == a[j];
    }
    if AnyIn(b, text) {
      var j :| 0 <= j < |b| && Contains(text, b[j]);
      assert a[j] == b[j];
    }
    if Contains(text, lex[i]) {
      assert a[i] == lex[i];
    }
  }
}
