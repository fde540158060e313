/** ASCII models of the Python string operations the classifier relies on:
    `str.lower()`, `str.strip()`, `str.split()`, `in` (substring containment),
    `str.startswith` and `str.endswith`. */
module Text {

  /** Characters Python's `str.isspace()` accepts in the ASCII range; `strip()`
      and `split()` without arguments cut on exactly these. */
  predicate IsSpace(c: char) {
    // tab, line feed, vertical tab, form feed, carriage return; the four
    // information separators 0x1C-0x1F; and the space character
    9 <= c as int <= 13 || 28 <= c as int <= 32
  }

  function LowerChar(c: char): (d: char)
    ensures 'A' <= c <= 'Z' ==> 'a' <= d <= 'z' && d as int - c as int == 32
    ensures !('A' <= c <= 'Z') ==> d == c
  {
    if 'A' <= c <= 'Z' then (c as int + 32) as char else c
  }

  /** `s.lower()` on ASCII text: upper-case letters become lower case, position by position. */
  function Lower(s: string): (r: string)
    ensures |r| == |s|
    ensures forall i :: 0 <= i < |s| ==> r[i] == LowerChar(s[i])
  {
    if s == [] then [] else [LowerChar(s[0])] + Lower(s[1..])
  }

  lemma {:induction false} LowerAppend(a: string, b: string)
    ensures Lower(a + b) == Lower(a) + Lower(b)
  {
    var l, r := Lower(a + b), Lower(a) + Lower(b);
    assert |l| == |r|;
    forall i | 0 <= i < |l| ensures l[i] == r[i] {
      if i < |a| { assert (a + b)[i] == a[i]; } else { assert (a + b)[i] == b[i - |a|]; }
    }
  }

  /** Lowercasing a prefix gives the prefix of the lowercase. */
  lemma LowerPrefix(s: string, n: nat)
    requires n <= |s|
    ensures Lower(s)[..n] == Lower(s[..n])
  {
  }

  /** `s.startswith(p)`. */
  predicate StartsWith(s: string, p: string) {
    |p| <= |s| && s[..|p|] == p
  }

  /** `s.endswith(p)`. */
  predicate EndsWith(s: string, p: string) {
    |p| <= |s| && s[|s| - |p|..] == p
  }

  /** `p in s` for strings: `p` occurs at some position of `s`. */
  predicate Contains(s: string, p: string) {
    StartsWith(s, p) || (s != [] && Contains(s[1..], p))
  }

  /** `p` occurs in `s` at position `i`. */
  predicate OccursAt(s: string, p: string, i: int) {
    0 <= i && i + |p| <= |s| && s[i..i + |p|] == p
  }

  /** Containment is occurrence at some position. */
  lemma {:induction false} ContainsIff(s: string, p: string)
    ensures Contains(s, p) <==> exists i :: OccursAt(s, p, i)
  {
    if Contains(s, p) {
      if StartsWith(s, p) {
        assert OccursAt(s, p, 0);
      } else {
        ContainsIff(s[1..], p);
        var i :| OccursAt(s[1..], p, i);
        assert s[1..][i..i + |p|] == s[i + 1..i + 1 + |p|];
        assert OccursAt(s, p, i + 1);
      }
    }
    if i :| OccursAt(s, p, i) {
      ContainsAt(s, p, i);
    }
  }

  lemma {:induction false} ContainsAt(s: string, p: string, i: int)
    requires OccursAt(s, p, i)
    ensures Contains(s, p)
    decreases i
  {
    if i == 0 {
      assert s[..|p|] == p;
    } else {
      assert s[1..][i - 1..i - 1 + |p|] == s[i..i + |p|];
      ContainsAt(s[1..], p, i - 1);
    }
  }

  /** A substring of the middle part occurs in the whole. */
  lemma ContainsInfix(a: string, b: string, c: string, p: string)
    requires Contains(b, p)
    ensures Contains(a + b + c, p)
  {
    ContainsIff(b, p);
    var i :| OccursAt(b, p, i);
    var s := a + b + c;
    assert s[|a| + i..|a| + i + |p|] == b[i..i + |p|];
    ContainsAt(s, p, |a| + i);
  }

  /** Anything found in `a` is still found once more text is appended. */
  lemma ContainsAppend(a: string, b: string, p: string)
    requires Contains(a, p)
    ensures Contains(a + b, p)
  {
    ContainsInfix([], a, b, p);
    assert [] + a + b == a + b;
  }

  /** Number of leading characters that are not whitespace. */
  function RunLength(s: string): (k: nat)
    ensures k <= |s|
    ensures forall i :: 0 <= i < k ==> !IsSpace(s[i])
    ensures k < |s| ==> IsSpace(s[k])
  {
    if s == [] || IsSpace(s[0]) then 0 else 1 + RunLength(s[1..])
  }

  /** `s.split()`: the maximal runs of non-whitespace characters, in order. */
  function Words(s: string): (ws: seq<string>)
    ensures forall j :: 0 <= j < |ws| ==> ws[j] != [] && forall i :: 0 <= i < |ws[j]| ==> !IsSpace(ws[j][i])
    decreases |s|
  {
    if s == [] then []
    else if IsSpace(s[0]) then Words(s[1..])
    else
      var k := RunLength(s);
      [s[..k]] + Words(s[k..])
  }

  /** A phrase without whitespace that occurs in `s` occurs inside one of the
      words of `s.split()`; the result is that word's index. */
  lemma {:induction false} WordContaining(s: string, p: string) returns (j: nat)
    requires p != [] && forall i :: 0 <= i < |p| ==> !IsSpace(p[i])
    requires Contains(s, p)
    ensures j < |Words(s)| && Contains(Words(s)[j], p)
    decreases |s|, 1
  {
    ContainsIff(s, p);
    var i :| OccursAt(s, p, i);
    if IsSpace(s[0]) {
      assert s[0] != p[0];
      assert s[1..][i - 1..i - 1 + |p|] == s[i..i + |p|];
      ContainsAt(s[1..], p, i - 1);
      j := WordContaining(s[1..], p);
    } else {
      j := WordContainingFromWord(s, p, i);
    }
  }

  /** An occurrence of a phrase without whitespace covers no whitespace. */
  lemma OccurrenceHasNoSpace(s: string, p: string, i: nat)
    requires forall m :: 0 <= m < |p| ==> !IsSpace(p[m])
    requires OccursAt(s, p, i)
    ensures forall m :: i <= m < i + |p| ==> !IsSpace(s[m])
  {
    forall m | i <= m < i + |p| ensures !IsSpace(s[m]) {
      assert s[m] == s[i..i + |p|][m - i];
    }
  }

  /** The case of `WordContaining` where `s` starts with a word. */
  lemma {:induction false} WordContainingFromWord(s: string, p: string, i: nat) returns (j: nat)
    requires p != [] && forall m :: 0 <= m < |p| ==> !IsSpace(p[m])
    requires s != [] && !IsSpace(s[0]) && OccursAt(s, p, i)
    ensures j < |Words(s)| && Contains(Words(s)[j], p)
    decreases |s|, 0
  {
    var k := RunLength(s);
    assert Words(s) == [s[..k]] + Words(s[k..]);
    OccurrenceHasNoSpace(s, p, i);
    if i + |p| <= k {
      assert s[..k][i..i + |p|] == s[i..i + |p|];
      ContainsAt(s[..k], p, i);
      j := 0;
    } else {
      // the occurrence cannot straddle the whitespace at s[k]
      assert k <= i;
      assert s[k..][i - k..i - k + |p|] == s[i..i + |p|];
      ContainsAt(s[k..], p, i - k);
      var j' := WordContaining(s[k..], p);
      j := j' + 1;
    }
  }

  /** `s.lstrip()`. */
  function StripLeft(s: string): (r: string)
    ensures |r| <= |s| && r == s[|s| - |r|..]
    ensures r != [] ==> !IsSpace(r[0])
    ensures forall i :: 0 <= i < |s| - |r| ==> IsSpace(s[i])
  {
    if s != [] && IsSpace(s[0]) then StripLeft(s[1..]) else s
  }

  /** `s.rstrip()`. */
  function StripRight(s: string): (r: string)
    ensures |r| <= |s| && r == s[..|r|]
    ensures r != [] ==> !IsSpace(r[|r| - 1])
    ensures forall i :: |r| <= i < |s| ==> IsSpace(s[i])
  {
    if s != [] && IsSpace(s[|s| - 1]) then StripRight(s[..|s| - 1]) else s
  }

  /** `s.strip()`. */
  function Strip(s: string): string {
    StripRight(StripLeft(s))
  }

  /** A non-empty run of non-whitespace characters. */
  predicate IsWord(w: string) {
    w != [] && forall i :: 0 <= i < |w| ==> !IsSpace(w[i])
  }

  /** `" ".join(ws)`. */
  function Join(ws: seq<string>): string
    decreases |ws|
  {
    if ws == [] then []
    else if |ws| == 1 then ws[0]
    else ws[0] + " " + Join(ws[1..])
  }

  /** A word followed by whitespace or by nothing is one run. */
  lemma {:induction false} RunLengthWord(w: string, rest: string)
    requires IsWord(w) && (rest == [] || IsSpace(rest[0]))
    ensures RunLength(w + rest) == |w|
    decreases |w|
  {
    assert (w + rest)[0] == w[0];
    if |w| == 1 {
      assert (w + rest)[1..] == rest;
    } else {
      assert (w + rest)[1..] == w[1..] + rest;
      RunLengthWord(w[1..], rest);
    }
  }

  /** `split()` undoes `" ".join` on words. */
  lemma {:induction false} WordsJoin(ws: seq<string>)
    requires forall j :: 0 <= j < |ws| ==> IsWord(ws[j])
    ensures Words(Join(ws)) == ws
    decreases |ws|
  {
    if |ws| == 1 {
      RunLengthWord(ws[0], []);
      assert ws[0] + [] == ws[0];
      assert ws[0][|ws[0]|..] == [];
    } else if |ws| > 1 {
      var rest := Join(ws[1..]);
      assert ws[0] + " " + rest == ws[0] + (" " + rest);
      WordsLeadingWord(ws[0], rest);
      WordsJoin(ws[1..]);
    }
  }

  /** A word followed by a space and more text splits into that word and the
      words of the text. */
  lemma WordsLeadingWord(w: string, rest: string)
    requires IsWord(w)
    ensures Words(w + (" " + rest)) == [w] + Words(rest)
  {
    var tail := " " + rest;
    var s := w + tail;
    RunLengthWord(w, tail);
    assert s[..|w|] == w && s[|w|..] == tail;
    assert tail[1..] == rest;
  }

  /** A join of words starts with its first word's first character and ends
      with its last word's last character. */
  lemma {:induction false} JoinEnds(ws: seq<string>)
    requires ws != [] && forall j :: 0 <= j < |ws| ==> IsWord(ws[j])
    ensures |Join(ws)| > 0
    ensures IsWord(ws[0]) && Join(ws)[0] == ws[0][0]
    ensures IsWord(ws[|ws| - 1]) && Join(ws)[|Join(ws)| - 1] == ws[|ws| - 1][|ws[|ws| - 1]| - 1]
    decreases |ws|
  {
    if |ws| > 1 {
      JoinEnds(ws[1..]);
      var s := ws[0] + " " + Join(ws[1..]);
      assert s[|s| - 1] == Join(ws[1..])[|Join(ws[1..])| - 1];
    }
  }

  /** A join of words has no surrounding whitespace to strip. */
  lemma StripJoin(ws: seq<string>)
    requires ws != [] && forall j :: 0 <= j < |ws| ==> IsWord(ws[j])
    ensures Strip(Join(ws)) == Join(ws)
  {
    JoinEnds(ws);
  }

  /** An occurrence survives lowercasing, as the lowercased pattern. */
  lemma ContainsLower(s: string, p: string)
    requires Contains(s, p)
    ensures Contains(Lower(s), Lower(p))
  {
    ContainsIff(s, p);
    var i :| OccursAt(s, p, i);
    var l := Lower(s);
    assert l[i..i + |p|] == Lower(p) by {
      forall m | 0 <= m < |p| ensures l[i..i + |p|][m] == Lower(p)[m] {
        assert s[i + m] == p[m];
      }
    }
    ContainsAt(l, Lower(p), i);
  }

  /** A pattern found in one of the words is found in their join. */
  lemma {:induction false} JoinContains(ws: seq<string>, j: nat, p: string)
    requires j < |ws| && Contains(ws[j], p)
    ensures Contains(Join(ws), p)
    decreases |ws|
  {
    if |ws| > 1 {
      if j == 0 {
        ContainsAppend(ws[0], " " + Join(ws[1..]), p);
        assert ws[0] + (" " + Join(ws[1..])) == Join(ws);
      } else {
        JoinContains(ws[1..], j - 1, p);
        ContainsInfix(ws[0] + " ", Join(ws[1..]), [], p);
        assert ws[0] + " " + Join(ws[1..]) + [] == Join(ws);
      }
    }
  }

  /** Text without upper-case letters is its own lowercase. */
  lemma LowerOfLowercase(s: string)
    requires forall i :: 0 <= i < |s| ==> !('A' <= s[i] <= 'Z')
    ensures Lower(s) == s
  {
    assert forall i :: 0 <= i < |s| ==> Lower(s)[i] == s[i];
  }

  /** A join of words has at least one character per word and one space between
      neighbours. */
  lemma {:induction false} JoinLength(ws: seq<string>)
    requires forall j :: 0 <= j < |ws| ==> IsWord(ws[j])
    ensures |Join(ws)| >= 2 * |ws| - 1
    decreases |ws|
  {
    if |ws| > 1 {
      JoinLength(ws[1..]);
      assert IsWord(ws[0]);
    }
  }
}

