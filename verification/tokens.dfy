/**
 Whitespace, lowercasing, `str.split()` with no argument and `str.strip()`:
 the text handling the query side applies to a search phrase.
 */
module Tokens {

  /** Python's `str.isspace()` for one character: the characters `split()` and `strip()` treat as whitespace. */
  predicate IsSpace(c: char) {
    var n := c as int;
    || 9 <= n <= 13
    || 28 <= n <= 32
    || n == 0x85 || n == 0xA0 || n == 0x1680
    || 0x2000 <= n <= 0x200A
    || n == 0x2028 || n == 0x2029 || n == 0x202F || n == 0x205F || n == 0x3000
  }

  predicate AllSpace(s: string) {
    forall i :: 0 <= i < |s| ==> IsSpace(s[i])
  }

  /** `str.lower()` restricted to ASCII letters. */
  function LowerChar(c: char): (d: char)
    ensures IsSpace(d) <==> IsSpace(c)
  {
    if 'A' <= c <= 'Z' then (c as int + 32) as char else c
  }

  function Lower(s: string): (r: string)
    ensures |r| == |s|
  {
    seq(|s|, i requires 0 <= i < |s| => LowerChar(s[i]))
  }

  lemma LowerConcat(a: string, b: string)
    ensures Lower(a + b) == Lower(a) + Lower(b)
  {
  }

  /** The number of leading non-whitespace characters. */
  function WordLength(s: string): (n: nat)
    ensures n <= |s|
    ensures forall i :: 0 <= i < n ==> !IsSpace(s[i])
    ensures n == |s| || IsSpace(s[n])
  {
    if |s| == 0 || IsSpace(s[0]) then 0 else 1 + WordLength(s[1..])
  }

  /** `s.split()`: the maximal runs of non-whitespace characters, in order. */
  function Words(s: string): seq<string>
    decreases |s|
  {
    if |s| == 0 then []
    else if IsSpace(s[0]) then Words(s[1..])
    else
      var n := WordLength(s);
      [s[..n]] + Words(s[n..])
  }

  predicate HasSpace(s: string) {
    exists i :: 0 <= i < |s| && IsSpace(s[i])
  }

  /** Every token is non-empty and holds no whitespace. */
  lemma {:induction false} WordsAreRuns(s: string)
    ensures forall i :: 0 <= i < |Words(s)| ==> |Words(s)[i]| > 0 && !HasSpace(Words(s)[i])
    decreases |s|
  {
    if |s| > 0 {
      if IsSpace(s[0]) {
        WordsAreRuns(s[1..]);
      } else {
        var n := WordLength(s);
        WordsAreRuns(s[n..]);
        var ws := Words(s);
        forall i | 0 <= i < |ws| ensures |ws[i]| > 0 && !HasSpace(ws[i]) {
          if i > 0 {
            assert ws[i] == Words(s[n..])[i - 1];
          }
        }
      }
    }
  }

  /** A phrase has no words exactly when it is all whitespace. */
  lemma {:induction false} WordsEmptyIffAllSpace(s: string)
    ensures Words(s) == [] <==> AllSpace(s)
    decreases |s|
  {
    if |s| > 0 {
      WordsEmptyIffAllSpace(s[1..]);
      if IsSpace(s[0]) {
        assert AllSpace(s) <==> AllSpace(s[1..]) by {
          if AllSpace(s[1..]) {
            forall i | 0 <= i < |s| ensures IsSpace(s[i]) {
              if i > 0 { assert s[i] == s[1..][i - 1]; }
            }
          }
        }
      }
    }
  }

  /** A non-empty run without whitespace is one word. */
  lemma WordsOfWord(w: string)
    requires |w| > 0 && !HasSpace(w)
    ensures Words(w) == [w]
  {
    var n := WordLength(w);
    assert n == |w|;
    assert w[..n] == w;
  }

  /** One whitespace character separates the words before it from the words after it. */
  lemma WordsSplitAtSpace(a: string, c: char, b: string)
    requires IsSpace(c)
    ensures Words(a + [c] + b) == Words(a) + Words(b)
  {
    assert a + [c] + b == a + ([c] + b);
    WordsBeforeSpace(a, [c] + b);
    assert ([c] + b)[1..] == b;
  }

  lemma {:induction false} WordsBeforeSpace(a: string, t: string)
    requires |t| > 0 && IsSpace(t[0])
    ensures Words(a + t) == Words(a) + Words(t[1..])
    decreases |a|
  {
    if |a| == 0 {
      assert a + t == t;
    } else if IsSpace(a[0]) {
      assert (a + t)[1..] == a[1..] + t;
      WordsBeforeSpace(a[1..], t);
    } else {
      var n := WordLength(a);
      WordLengthExtend(a, t);
      assert (a + t)[..n] == a[..n];
      assert (a + t)[n..] == a[n..] + t;
      WordsBeforeSpace(a[n..], t);
    }
  }

  /** A word ending inside `a`, or at a whitespace character that follows it, is unchanged by what follows. */
  lemma {:induction false} WordLengthExtend(a: string, t: string)
    requires WordLength(a) < |a| || (|t| > 0 && IsSpace(t[0]))
    ensures WordLength(a + t) == WordLength(a)
    decreases |a|
  {
    if |a| == 0 {
      assert a + t == t;
    } else if !IsSpace(a[0]) {
      assert (a + t)[1..] == a[1..] + t;
      WordLengthExtend(a[1..], t);
    }
  }

  /** Leading whitespace does not change the words. */
  lemma {:induction false} WordsLeadingSpace(sp: string, s: string)
    requires AllSpace(sp)
    ensures Words(sp + s) == Words(s)
    decreases |sp|
  {
    if |sp| > 0 {
      assert (sp + s)[1..] == sp[1..] + s;
      WordsLeadingSpace(sp[1..], s);
    } else {
      assert sp + s == s;
    }
  }

  /** Trailing whitespace does not change the words. */
  lemma WordsTrailingSpace(s: string, sp: string)
    requires AllSpace(sp)
    ensures Words(s + sp) == Words(s)
  {
    if |sp| > 0 {
      assert s + sp == s + [sp[0]] + sp[1..];
      WordsSplitAtSpace(s, sp[0], sp[1..]);
      WordsEmptyIffAllSpace(sp[1..]);
    } else {
      assert s + sp == s;
    }
  }

  function StripLeft(s: string): (r: string)
    ensures |r| <= |s| && r == s[|s| - |r|..]
    ensures AllSpace(s[..|s| - |r|])
    ensures r == [] || !IsSpace(r[0])
  {
    if |s| > 0 && IsSpace(s[0]) then StripLeft(s[1..]) else s
  }

  function StripRight(s: string): (r: string)
    ensures |r| <= |s| && r == s[..|r|]
    ensures AllSpace(s[|r|..])
    ensures r == [] || !IsSpace(r[|r| - 1])
  {
    if |s| > 0 && IsSpace(s[|s| - 1]) then
      var r := StripRight(s[..|s| - 1]);
      assert s[|r|..] == s[..|s| - 1][|r|..] + [s[|s| - 1]];
      r
    else s
  }

  /** `s.strip()`: `s` without its leading and trailing whitespace. */
  function Strip(s: string): string {
    StripRight(StripLeft(s))
  }

  /** Where the stripped text starts in the input. */
  function StripStart(s: string): nat {
    |s| - |StripLeft(s)|
  }

  /**
   `strip()` gives a slice of the input with only whitespace outside it, and
   neither end of a non-empty result is whitespace.
   */
  lemma StripSpec(s: string)
    ensures StripStart(s) + |Strip(s)| <= |s|
    ensures Strip(s) == s[StripStart(s)..StripStart(s) + |Strip(s)|]
    ensures AllSpace(s[..StripStart(s)])
    ensures AllSpace(s[StripStart(s) + |Strip(s)|..])
    ensures Strip(s) == [] || (!IsSpace(Strip(s)[0]) && !IsSpace(Strip(s)[|Strip(s)| - 1]))
  {
    var l := StripLeft(s);
    StripParts(s, l, StripRight(l));
  }

  /** A prefix `r` of a suffix `l` of `s`, with whitespace cut from both sides. */
  lemma StripParts(s: string, l: string, r: string)
    requires |l| <= |s| && l == s[|s| - |l|..] && AllSpace(s[..|s| - |l|])
    requires |r| <= |l| && r == l[..|r|] && AllSpace(l[|r|..])
    ensures r == s[|s| - |l|..|s| - |l| + |r|]
    ensures AllSpace(s[|s| - |l| + |r|..])
  {
    var lo := |s| - |l|;
    assert l[|r|..] == s[lo + |r|..];
  }

  /** The lowercased whitespace tokens of a search phrase. */
  function Terms(phrase: string): seq<string>
  {
    Words(Lower(phrase))
  }

  /** Lowercasing keeps whitespace where it was. */
  lemma LowerAllSpace(s: string)
    requires AllSpace(s)
    ensures AllSpace(Lower(s))
  {
  }

  lemma LowerAround(pre: string, mid: string, post: string)
    ensures Lower(pre + mid + post) == Lower(pre) + Lower(mid) + Lower(post)
  {
    LowerConcat(pre + mid, post);
    LowerConcat(pre, mid);
  }

  /** Whitespace on both sides of a text adds no word. */
  lemma WordsAroundSpace(pre: string, mid: string, post: string)
    requires AllSpace(pre) && AllSpace(post)
    ensures Words(pre + mid + post) == Words(mid)
  {
    WordsTrailingSpace(pre + mid, post);
    WordsLeadingSpace(pre, mid);
  }

  /** Stripping a phrase before tokenising it changes no token. */
  lemma TermsOfStripped(phrase: string)
    ensures Terms(Strip(phrase)) == Terms(phrase)
  {
    var r, lo := Strip(phrase), StripStart(phrase);
    StripSpec(phrase);
    var pre, post := phrase[..lo], phrase[lo + |r|..];
    assert phrase == pre + r + post;
    LowerAround(pre, r, post);
    LowerAllSpace(pre);
    LowerAllSpace(post);
    WordsAroundSpace(Lower(pre), Lower(r), Lower(post));
  }

  /** A phrase yields no tokens exactly when it strips to nothing. */
  lemma TermsEmptyIffBlank(phrase: string)
    ensures Terms(phrase) == [] <==> Strip(phrase) == []
  {
    TermsOfStripped(phrase);
    WordsEmptyIffAllSpace(Lower(Strip(phrase)));
    StripSpec(phrase);
    var r := Strip(phrase);
    if r != [] {
      assert !IsSpace(Lower(r)[0]);
    }
  }

  /** Joining two phrases with whitespace concatenates their tokens. */
  lemma TermsOfJoinedPhrase(p: string, q: string)
    ensures Terms(p + " " + q) == Terms(p) + Terms(q)
  {
    LowerConcat(p + " ", q);
    LowerConcat(p, " ");
    assert Lower(" ") == " ";
    WordsSplitAtSpace(Lower(p), ' ', Lower(q));
  }
}
