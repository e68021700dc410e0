/**
 Substring search and separator splitting on `str`, with the semantics of
 Python's `t in s`, `s.split(sep)` and `s.split(sep, 1)` for a non-empty `sep`.
 */
module Text {
  import opened Wrappers

  /** Python's `t in s`: `t` occurs somewhere in `s`. */
  predicate Contains(s: string, t: string) {
    exists i :: 0 <= i <= |s| && t <= s[i..]
  }

  /** The index of the first occurrence of `t` in `s` at or after `from`. */
  function FindFrom(s: string, t: string, from: nat): (r: Option<nat>)
    requires from <= |s|
    ensures r.Some? ==> from <= r.value <= |s| && t <= s[r.value..]
    ensures r.Some? ==> forall j :: from <= j < r.value ==> !(t <= s[j..])
    ensures r.None? ==> forall j :: from <= j <= |s| ==> !(t <= s[j..])
    decreases |s| - from
  {
    if t <= s[from..] then Some(from)
    else if from == |s| then None
    else FindFrom(s, t, from + 1)
  }

  /** The index of the first occurrence of `t` in `s`, if any. */
  function FindFirst(s: string, t: string): (r: Option<nat>)
    ensures r.Some? <==> Contains(s, t)
    ensures r.Some? ==> r.value <= |s| && t <= s[r.value..]
    ensures r.Some? ==> forall j :: 0 <= j < r.value ==> !(t <= s[j..])
  {
    FindFrom(s, t, 0)
  }

  /** Concatenation is associative; stated once so proofs can regroup without searching. */
  lemma AppendAssoc<T>(a: seq<T>, b: seq<T>, c: seq<T>)
    ensures a + (b + c) == (a + b) + c
  {
  }

  /** The pieces with `sep` between them: the inverse that states what `Split` cuts. */
  function Join(parts: seq<string>, sep: string): string
  {
    if |parts| == 0 then ""
    else if |parts| == 1 then parts[0]
    else parts[0] + sep + Join(parts[1..], sep)
  }

  /**
   `s.split(sep)`: scanning left to right, every non-overlapping occurrence of
   `sep` ends one piece and starts the next.
   */
  function Split(s: string, sep: string): (parts: seq<string>)
    requires |sep| > 0
    ensures |parts| >= 1
    ensures Join(parts, sep) == s
    decreases |s|
  {
    if |s| < |sep| then [s]
    else if sep <= s then
      var rest := Split(s[|sep|..], sep);
      assert s == sep + s[|sep|..];
      [""] + rest
    else
      var rest := Split(s[1..], sep);
      JoinConsHead(s[0], rest, sep);
      [[s[0]] + rest[0]] + rest[1..]
  }

  /**
   The cuts are leftmost and non-overlapping: there is more than one piece
   exactly when `sep` occurs, the first cut is at its first occurrence, and
   the remaining pieces are the split of the text after that occurrence.
   */
  lemma {:induction false} SplitCutsLeftmost(s: string, sep: string)
    requires |sep| > 0
    ensures |Split(s, sep)| > 1 <==> Contains(s, sep)
    ensures Contains(s, sep) ==> FindFirst(s, sep) == Some(|Split(s, sep)[0]|)
    ensures Contains(s, sep) ==> |Split(s, sep)[0]| + |sep| <= |s|
    ensures Contains(s, sep) ==> Split(s, sep)[1..] == Split(s[|Split(s, sep)[0]| + |sep|..], sep)
    decreases |s|
  {
    var parts := Split(s, sep);
    if |s| < |sep| {
      NoRoomNoMatch(s, sep);
    } else if sep <= s {
      assert s[0..] == s;
    } else {
      var rest := Split(s[1..], sep);
      SplitCutsLeftmost(s[1..], sep);
      ContainsShift(s, sep);
      assert parts == [[s[0]] + rest[0]] + rest[1..];
      if |rest| > 1 {
        FindFirstShift(s, sep);
        assert s[1..][|rest[0]| + |sep|..] == s[1 + |rest[0]| + |sep|..];
      }
    }
  }

  /** A text shorter than `t` cannot contain it. */
  lemma NoRoomNoMatch(s: string, t: string)
    requires |s| < |t|
    ensures !Contains(s, t)
  {
  }

  /** When `t` does not start `s`, dropping the first character keeps every occurrence. */
  lemma ContainsShift(s: string, t: string)
    requires |s| > 0 && !(t <= s)
    ensures Contains(s, t) <==> Contains(s[1..], t)
  {
    if Contains(s, t) {
      var i :| 0 <= i <= |s| && t <= s[i..];
      assert i != 0 by { assert s[0..] == s; }
      assert s[1..][i - 1..] == s[i..];
    }
    if Contains(s[1..], t) {
      var i :| 0 <= i <= |s| - 1 && t <= s[1..][i..];
      assert s[1..][i..] == s[i + 1..];
    }
  }

  /** When `t` does not start `s`, its first occurrence in `s` is one past its first occurrence in `s[1..]`. */
  lemma FindFirstShift(s: string, t: string)
    requires |s| > 0 && !(t <= s) && Contains(s[1..], t)
    ensures FindFirst(s, t) == Some(1 + FindFirst(s[1..], t).value)
  {
    ContainsShift(s, t);
    var k := FindFirst(s[1..], t).value;
    var m := FindFirst(s, t).value;
    assert t <= s[1 + k..] by { assert s[1..][k..] == s[1 + k..]; }
    assert m != 0 by { assert s[0..] == s; }
    assert t <= s[1..][m - 1..] by { assert s[1..][m - 1..] == s[m..]; }
    assert m == 1 + k;
  }

  lemma JoinConsHead(c: char, parts: seq<string>, sep: string)
    requires |parts| >= 1
    ensures Join([[c] + parts[0]] + parts[1..], sep) == [c] + Join(parts, sep)
  {
    var ps := [[c] + parts[0]] + parts[1..];
    assert ps[1..] == parts[1..];
  }

  /** The first piece starts the joined text. */
  lemma JoinStartsWithHead(parts: seq<string>, sep: string)
    requires |parts| >= 1
    ensures parts[0] <= Join(parts, sep)
  {
  }

  /** Appending one more piece appends the separator and that piece. */
  lemma {:induction false} JoinSnoc(parts: seq<string>, last: string, sep: string)
    requires |parts| >= 1
    ensures Join(parts + [last], sep) == Join(parts, sep) + sep + last
    decreases |parts|
  {
    var ps := parts + [last];
    if |parts| == 1 {
      assert ps[1..] == [last];
    } else {
      assert ps[1..] == parts[1..] + [last];
      JoinSnoc(parts[1..], last, sep);
    }
  }

  /** No piece of a split contains the separator. */
  lemma {:induction false} SplitPiecesAvoidSep(s: string, sep: string)
    requires |sep| > 0
    ensures forall i :: 0 <= i < |Split(s, sep)| ==> !Contains(Split(s, sep)[i], sep)
    decreases |s|
  {
    var parts := Split(s, sep);
    if |s| < |sep| {
      forall j | 0 <= j <= |s| ensures !(sep <= s[j..]) { }
    } else if sep <= s {
      SplitPiecesAvoidSep(s[|sep|..], sep);
      assert !(sep <= parts[0][0..]);
    } else {
      var rest := Split(s[1..], sep);
      SplitPiecesAvoidSep(s[1..], sep);
      var h := [s[0]] + rest[0];
      assert parts[0] == h;
      JoinStartsWithHead(parts, sep);
      forall j | 0 <= j <= |h| ensures !(sep <= h[j..]) {
        if j > 0 {
          assert h[j..] == rest[0][j - 1..];
        }
      }
      forall i | 1 <= i < |parts| ensures !Contains(parts[i], sep) {
        assert parts[i] == rest[i];
      }
    }
  }

  /** The first piece is a prefix, and is followed by the separator unless it is everything. */
  lemma SplitFirstPiece(s: string, sep: string)
    requires |sep| > 0
    ensures Split(s, sep)[0] <= s
    ensures |Split(s, sep)| == 1 ==> Split(s, sep)[0] == s
    ensures |Split(s, sep)| > 1 ==> sep <= s[|Split(s, sep)[0]|..]
  {
    var parts := Split(s, sep);
    if |parts| > 1 {
      assert s == parts[0] + (sep + Join(parts[1..], sep));
    }
  }

  /** The last piece is a suffix, and is preceded by the separator unless it is everything. */
  lemma SplitLastPiece(s: string, sep: string)
    requires |sep| > 0
    ensures var parts := Split(s, sep); var last := parts[|parts| - 1];
      && |last| <= |s| && s[|s| - |last|..] == last
      && (|parts| == 1 ==> last == s)
      && (|parts| > 1 ==> |last| + |sep| <= |s| && sep <= s[|s| - |last| - |sep|..])
  {
    var parts := Split(s, sep);
    var n := |parts|;
    var last := parts[n - 1];
    if n > 1 {
      assert parts == parts[..n - 1] + [last];
      JoinSnoc(parts[..n - 1], last, sep);
      var front := Join(parts[..n - 1], sep);
      assert s == front + sep + last;
      assert s[|s| - |last| - |sep|..] == sep + last;
    }
  }

  /** A text with no occurrence of the separator splits into itself alone. */
  lemma SplitWithoutSep(s: string, sep: string)
    requires |sep| > 0
    requires !Contains(s, sep)
    ensures Split(s, sep) == [s]
  {
    SplitFirstPiece(s, sep);
  }

  /** Splitting a text that starts with the separator yields an empty first piece. */
  lemma SplitSepFirst(sep: string, rest: string)
    requires |sep| > 0
    ensures Split(sep + rest, sep) == [""] + Split(rest, sep)
  {
    assert (sep + rest)[|sep|..] == rest;
  }

  /** Splitting a text that does not start with the separator moves its first character into the first piece. */
  lemma SplitNoMatchHere(s: string, sep: string)
    requires |sep| > 0 && |s| > 0 && !(sep <= s)
    ensures Split(s, sep) == [[s[0]] + Split(s[1..], sep)[0]] + Split(s[1..], sep)[1..]
  {
    if |s| < |sep| {
      assert Split(s[1..], sep) == [s[1..]];
      assert s == [s[0]] + s[1..];
    }
  }

  /** A prefix free of the separator's first character joins the first piece. */
  lemma {:induction false} SplitPlainPrefix(p: string, rest: string, sep: string)
    requires |sep| > 0
    requires forall i :: 0 <= i < |p| ==> p[i] != sep[0]
    ensures Split(p + rest, sep) == [p + Split(rest, sep)[0]] + Split(rest, sep)[1..]
    decreases |p|
  {
    var r := Split(rest, sep);
    if |p| == 0 {
      assert p + rest == rest;
      assert p + r[0] == r[0];
      assert r == [r[0]] + r[1..];
    } else {
      var s := p + rest;
      assert !(sep <= s) by { assert s[0] == p[0]; }
      SplitNoMatchHere(s, sep);
      assert s[1..] == p[1..] + rest;
      SplitPlainPrefix(p[1..], rest, sep);
      assert [s[0]] + (p[1..] + r[0]) == p + r[0];
    }
  }
}
