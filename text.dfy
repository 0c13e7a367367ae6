/**
 * The pieces of Go's `strings` package the record store relies on, on `seq<char>`:
 * Split and Join on a one-character separator, TrimSpace, Contains, and
 * Replace(s, old, "", 1), which removes the first occurrence of a pattern.
 */
module Text {

  import opened Wrappers

  /** White space in the sense of Go's unicode.IsSpace. */
  predicate IsSpace(c: char) {
    c == ' ' || c == '\t' || c == '\n' || c == '\r' || c == '\U{000B}' || c == '\U{000C}'
    || c == '\U{0085}' || c == '\U{00A0}' || c == '\U{1680}'
    || ('\U{2000}' <= c <= '\U{200A}')
    || c == '\U{2028}' || c == '\U{2029}' || c == '\U{202F}' || c == '\U{205F}' || c == '\U{3000}'
  }

  function TrimLeft(s: string): (r: string)
    ensures |r| <= |s| && r == s[|s| - |r|..]
    ensures r == [] || !IsSpace(r[0])
    ensures AllSpace(s[..|s| - |r|])
  {
    if |s| > 0 && IsSpace(s[0]) then
      var r := TrimLeft(s[1..]);
      assert s[..|s| - |r|] == [s[0]] + s[1..][..|s| - 1 - |r|];
      AllSpaceAround(s[0], s[1..][..|s| - 1 - |r|], []);
      assert s[|s| - |r|..] == s[1..][|s| - 1 - |r|..];
      r
    else s
  }

  function TrimRight(s: string): (r: string)
    ensures |r| <= |s| && r == s[..|r|]
    ensures r == [] || !IsSpace(r[|r| - 1])
    ensures AllSpace(s[|r|..])
  {
    if |s| > 0 && IsSpace(s[|s| - 1]) then
      var r := TrimRight(s[..|s| - 1]);
      assert s[|r|..] == s[..|s| - 1][|r|..] + [s[|s| - 1]];
      AllSpaceAround(s[|s| - 1], [], s[..|s| - 1][|r|..]);
      assert s[..|r|] == s[..|s| - 1][..|r|];
      r
    else s
  }

  /** White space with one more white-space character added at the front or the back. */
  lemma AllSpaceAround(c: char, t: string, u: string)
    requires IsSpace(c) && AllSpace(t) && AllSpace(u)
    ensures AllSpace([c] + t) && AllSpace(u + [c])
  {
    assert forall i :: 0 < i < |[c] + t| ==> ([c] + t)[i] == t[i - 1];
    assert forall i :: 0 <= i < |u| ==> (u + [c])[i] == u[i];
  }

  /** strings.TrimSpace: the longest infix of `s` that neither starts nor ends with white space. */
  function TrimSpace(s: string): (r: string)
    ensures r == [] || (!IsSpace(r[0]) && !IsSpace(r[|r| - 1]))
    ensures forall c :: c in r ==> c in s
    ensures exists i :: TrimmedAt(s, r, i)
  {
    var l := TrimLeft(s);
    var r := TrimRight(l);
    TrimmedBetween(s, l, r);
    assert r != [] ==> r[0] == l[0];
    assert TrimmedAt(s, r, |s| - |l|);
    r
  }

  lemma TrimmedBetween(s: string, l: string, r: string)
    requires |l| <= |s| && l == s[|s| - |l|..] && AllSpace(s[..|s| - |l|])
    requires |r| <= |l| && r == l[..|r|] && AllSpace(l[|r|..])
    ensures TrimmedAt(s, r, |s| - |l|)
    ensures forall c :: c in r ==> c in s
  {
    var i := |s| - |l|;
    assert s[i..i + |r|] == l[..|r|];
    assert s[i + |r|..] == l[|r|..];
    forall c | c in r ensures c in s {
      var j :| 0 <= j < |r| && r[j] == c;
      assert s[i + j] == c;
    }
  }

  /** `s` is white space, then `r` starting at index `i`, then white space. */
  predicate TrimmedAt(s: string, r: string, i: nat) {
    i + |r| <= |s| && s[i..i + |r|] == r && AllSpace(s[..i]) && AllSpace(s[i + |r|..])
  }

  /** Every character is white space. */
  predicate AllSpace(t: string) {
    forall i :: 0 <= i < |t| ==> IsSpace(t[i])
  }

  /** strings.Join with a one-character separator. */
  function Join(pieces: seq<string>, sep: char): (r: string)
    ensures |pieces| > 0 ==> |pieces[0]| <= |r| && r[..|pieces[0]|] == pieces[0]
  {
    if |pieces| == 0 then ""
    else if |pieces| == 1 then pieces[0]
    else pieces[0] + [sep] + Join(pieces[1..], sep)
  }

  /**
   * strings.Split with a one-character separator: the pieces between the
   * separators, so there is always one more piece than there are separators.
   */
  function Split(s: string, sep: char): (r: seq<string>)
    ensures |r| >= 1
    ensures forall i :: 0 <= i < |r| ==> sep !in r[i]
    ensures forall i, c :: 0 <= i < |r| && c in r[i] ==> c in s
    decreases |s|
  {
    if s == [] then [""]
    else
      var rest := Split(s[1..], sep);
      assert forall c :: c in s[1..] ==> c in s;
      if s[0] == sep then [""] + rest
      else [[s[0]] + rest[0]] + rest[1..]
  }

  /** Joining the pieces of a split gives back the original text. */
  lemma {:induction false} JoinSplit(s: string, sep: char)
    ensures Join(Split(s, sep), sep) == s
    decreases |s|
  {
    if s != [] {
      var rest := Split(s[1..], sep);
      JoinSplit(s[1..], sep);
      if s[0] == sep {
        assert Split(s, sep) == [""] + rest;
        assert Join([""] + rest, sep) == "" + [sep] + Join(rest, sep);
      } else {
        var ps := [[s[0]] + rest[0]] + rest[1..];
        assert Split(s, sep) == ps;
        if |rest| == 1 {
          assert Join(ps, sep) == [s[0]] + rest[0];
        } else {
          assert ps[1..] == rest[1..];
          assert Join(ps, sep) == [s[0]] + rest[0] + [sep] + Join(rest[1..], sep);
        }
      }
    }
  }

  /** A separator-free head splits off as one piece. */
  lemma {:induction false} SplitAfterPiece(a: string, sep: char, tail: string)
    requires sep !in a
    ensures Split(a + [sep] + tail, sep) == [a] + Split(tail, sep)
    decreases |a|
  {
    if a == [] {
      assert a + [sep] + tail == [sep] + tail;
      assert ([sep] + tail)[1..] == tail;
    } else {
      var s := a + [sep] + tail;
      assert s[0] == a[0] && s[1..] == a[1..] + [sep] + tail;
      SplitAfterPiece(a[1..], sep, tail);
      assert [a[0]] + a[1..] == a;
    }
  }

  /** A separator-free text is a single piece. */
  lemma {:induction false} SplitWhole(a: string, sep: char)
    requires sep !in a
    ensures Split(a, sep) == [a]
    decreases |a|
  {
    if a != [] {
      SplitWhole(a[1..], sep);
      assert [a[0]] + a[1..] == a;
    }
  }

  /** Splitting a join of separator-free pieces gives back the pieces. */
  lemma {:induction false} SplitJoin(pieces: seq<string>, sep: char)
    requires |pieces| >= 1
    requires forall i :: 0 <= i < |pieces| ==> sep !in pieces[i]
    ensures Split(Join(pieces, sep), sep) == pieces
  {
    if |pieces| == 1 {
      SplitWhole(pieces[0], sep);
    } else {
      SplitJoin(pieces[1..], sep);
      SplitAfterPiece(pieces[0], sep, Join(pieces[1..], sep));
      assert [pieces[0]] + pieces[1..] == pieces;
    }
  }

  /** A character that is neither the separator nor in any piece is not in the join. */
  lemma {:induction false} JoinAvoids(pieces: seq<string>, sep: char, c: char)
    requires c != sep
    requires forall i :: 0 <= i < |pieces| ==> c !in pieces[i]
    ensures c !in Join(pieces, sep)
  {
    if |pieces| > 1 {
      JoinAvoids(pieces[1..], sep, c);
    }
  }

  /** `pat` occurs in `s` starting at index `i`. */
  predicate MatchAt(s: string, pat: string, i: nat) {
    i + |pat| <= |s| && s[i..i + |pat|] == pat
  }

  /** No occurrence of `pat` in `s` starts before index `k`. */
  predicate NoMatchBefore(s: string, pat: string, k: nat) {
    forall j: nat :: j < k ==> !MatchAt(s, pat, j)
  }

  /** The first index at or after `k` where `pat` occurs in `s` (strings.Index from `k`). */
  function IndexFrom(s: string, pat: string, k: nat): (r: Option<nat>)
    ensures r.Some? ==> k <= r.value && MatchAt(s, pat, r.value)
    ensures r.Some? ==> forall j: nat :: k <= j < r.value ==> !MatchAt(s, pat, j)
    ensures r.None? ==> forall j: nat :: k <= j ==> !MatchAt(s, pat, j)
    decreases |s| - k
  {
    if k + |pat| > |s| then None
    else if s[k..k + |pat|] == pat then Some(k)
    else IndexFrom(s, pat, k + 1)
  }

  function IndexOf(s: string, pat: string): Option<nat> {
    IndexFrom(s, pat, 0)
  }

  /** strings.Contains. */
  predicate Contains(s: string, pat: string)
    ensures Contains(s, pat) ==> |pat| <= |s|
    ensures pat == [] ==> Contains(s, pat)
  {
    assert pat == [] ==> MatchAt(s, pat, 0);
    IndexOf(s, pat).Some?
  }

  /** Contains holds exactly when some occurrence exists. */
  lemma ContainsIff(s: string, pat: string)
    ensures Contains(s, pat) <==> exists i: nat :: MatchAt(s, pat, i)
  {
  }

  /** The first occurrence is the one at `k` when `pat` occurs at `k` and not before. */
  lemma FirstIndex(s: string, pat: string, k: nat)
    requires MatchAt(s, pat, k) && NoMatchBefore(s, pat, k)
    ensures IndexOf(s, pat) == Some(k)
  {
  }

  /** strings.Replace(s, pat, "", 1): `s` without the first occurrence of `pat`, if any. */
  function RemoveFirst(s: string, pat: string): (r: string)
    ensures Contains(s, pat) ==> |r| == |s| - |pat|
    ensures !Contains(s, pat) ==> r == s
  {
    match IndexOf(s, pat)
    case None => s
    case Some(i) => s[..i] + s[i + |pat|..]
  }

  /** The occurrence removed is the first one, wherever it stands. */
  lemma RemoveFirstAt(s: string, pat: string, k: nat)
    requires MatchAt(s, pat, k) && NoMatchBefore(s, pat, k)
    ensures RemoveFirst(s, pat) == s[..k] + s[k + |pat|..]
  {
    FirstIndex(s, pat, k);
  }

  /** An occurrence right after `head`, with none earlier, is the one removed. */
  lemma RemoveFirstAfter(head: string, pat: string, tail: string)
    requires NoMatchBefore(head + pat + tail, pat, |head|)
    ensures RemoveFirst(head + pat + tail, pat) == head + tail
  {
    var s := head + pat + tail;
    var k := |head|;
    assert s[..k] == head;
    assert s[k..k + |pat|] == pat;
    assert s[k + |pat|..] == tail;
    RemoveFirstAt(s, pat, k);
  }

  /** When `a` already contains `pat`, what follows `a` is left alone. */
  lemma RemoveFirstInPrefix(a: string, b: string, pat: string)
    requires Contains(a, pat)
    ensures RemoveFirst(a + b, pat) == RemoveFirst(a, pat) + b
  {
    var k := IndexOf(a, pat).value;
    var s := a + b;
    assert MatchAt(a, pat, k);
    assert s[k..k + |pat|] == a[k..k + |pat|];
    forall j: nat | j < k ensures !MatchAt(s, pat, j) {
      assert !MatchAt(a, pat, j);
      assert s[j..j + |pat|] == a[j..j + |pat|];
    }
    FirstIndex(s, pat, k);
    assert s[..k] == a[..k];
    assert s[k + |pat|..] == a[k + |pat|..] + b;
  }
}
