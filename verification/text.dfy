/** String operations of Python's `str` that the crawler relies on:
    substring search (`in`, `index`), `split`, slicing and `lower`. */
module Text {
  import opened Results

  /** `t` occurs in `s` starting at position `i`. */
  ghost predicate OccursAt(t: string, s: string, i: int)
  {
    0 <= i && i + |t| <= |s| && s[i..i + |t|] == t
  }

  lemma OccursAtShift(t: string, s: string, i: int)
    requires |s| > 0 && 0 <= i
    ensures OccursAt(t, s, i + 1) <==> OccursAt(t, s[1..], i)
  {
    if 0 <= i && i + 1 + |t| <= |s| {
      assert s[1..][i..i + |t|] == s[i + 1..i + 1 + |t|];
    }
  }

  /** Position of the first occurrence of `t` in `s`, as Python's
      `s.index(t)` (which raises when there is none). */
  function Find(s: string, t: string): (r: Option<nat>)
    ensures r.Some? ==> OccursAt(t, s, r.value)
    ensures r.Some? ==> forall j :: 0 <= j < r.value ==> !OccursAt(t, s, j)
    ensures r.None? ==> forall j :: !OccursAt(t, s, j)
    decreases |s|
  {
    if t <= s then
      assert s[0..|t|] == t;
      Some(0)
    else if |s| == 0 then
      None
    else
      var rest := Find(s[1..], t);
      assert !OccursAt(t, s, 0);
      assert forall j :: j >= 1 ==> (OccursAt(t, s, j) <==> OccursAt(t, s[1..], j - 1)) by {
        forall j | j >= 1
          ensures OccursAt(t, s, j) <==> OccursAt(t, s[1..], j - 1)
        {
          OccursAtShift(t, s, j - 1);
        }
      }
      match rest
      case None => None
      case Some(i) => Some(i + 1)
  }

  /** Python's `t in s` on strings: some occurrence of `t` in `s` exists. */
  function Contains(s: string, t: string): (b: bool)
    ensures b <==> exists i :: OccursAt(t, s, i)
  {
    Find(s, t).Some?
  }

  /** Position of the first element of `s` equal to `x`, as Python's
      `list.index(x)` and `str.index(c)` for a single character. */
  function FirstIndex<T(==)>(s: seq<T>, x: T): (r: Option<nat>)
    ensures r.Some? ==> r.value < |s| && s[r.value] == x && x !in s[..r.value]
    ensures r.None? <==> x !in s
    decreases |s|
  {
    if |s| == 0 then None
    else if s[0] == x then Some(0)
    else match FirstIndex(s[1..], x)
      case None => None
      case Some(i) =>
        assert s[..i + 1] == [s[0]] + s[1..][..i];
        Some(i + 1)
  }

  /** The first occurrence of `x` is the only position `i` holding `x` with no `x` before it. */
  lemma FirstIndexUnique<T>(s: seq<T>, x: T, i: nat)
    requires i < |s| && s[i] == x && x !in s[..i]
    ensures FirstIndex(s, x) == Some(i)
  {
  }

  /** Python's `sep.join(pieces)` for a one-character separator. */
  function Join(pieces: seq<string>, sep: char): string
  {
    if |pieces| == 0 then ""
    else if |pieces| == 1 then pieces[0]
    else pieces[0] + [sep] + Join(pieces[1..], sep)
  }

  /** Python's `s.split(sep)` for a one-character separator: every
      occurrence splits, and empty pieces are kept. */
  function Split(s: string, sep: char): (r: seq<string>)
    ensures |r| >= 1
    ensures forall k :: 0 <= k < |r| ==> sep !in r[k]
    ensures Join(r, sep) == s
    decreases |s|
  {
    match FirstIndex(s, sep)
    case None => [s]
    case Some(i) =>
      var rest := Split(s[i + 1..], sep);
      var r := [s[..i]] + rest;
      assert r[1..] == rest;
      assert s == s[..i] + [sep] + s[i + 1..];
      r
  }

  /** One step of `Split`: the piece before the first separator, then the split of the rest. */
  lemma SplitStep(s: string, sep: char, i: nat)
    requires FirstIndex(s, sep) == Some(i)
    ensures Split(s, sep) == [s[..i]] + Split(s[i + 1..], sep)
  {
  }

  /** Splitting undoes joining: the pieces come back when none holds the separator. */
  lemma {:induction false} SplitJoin(pieces: seq<string>, sep: char)
    requires |pieces| >= 1
    requires forall k :: 0 <= k < |pieces| ==> sep !in pieces[k]
    ensures Split(Join(pieces, sep), sep) == pieces
    decreases |pieces|
  {
    if |pieces| == 1 {
      assert FirstIndex(pieces[0], sep) == None;
    } else {
      var head := pieces[0];
      var tail := Join(pieces[1..], sep);
      var s := Join(pieces, sep);
      assert s == head + [sep] + tail;
      assert s[..|head|] == head;
      FirstIndexUnique(s, sep, |head|);
      SplitStep(s, sep, |head|);
      assert s[|head| + 1..] == tail;
      SplitJoin(pieces[1..], sep);
      assert pieces == [head] + pieces[1..];
    }
  }

  /** A joined string ends with the last piece. */
  lemma {:induction false} JoinEndsWithLast(pieces: seq<string>, sep: char)
    requires |pieces| >= 1
    ensures EndsWith(Join(pieces, sep), pieces[|pieces| - 1])
    decreases |pieces|
  {
    if |pieces| > 1 {
      JoinEndsWithLast(pieces[1..], sep);
    }
  }

  /** Pieces free of the separator whose join ends with the separator end with an empty piece. */
  lemma {:induction false} JoinedEndingInSeparator(pieces: seq<string>, sep: char, s: string)
    requires |pieces| >= 1
    requires forall k :: 0 <= k < |pieces| ==> sep !in pieces[k]
    requires Join(pieces, sep) == s
    requires |s| > 0 && s[|s| - 1] == sep
    ensures pieces[|pieces| - 1] == ""
  {
    JoinEndsWithLast(pieces, sep);
  }

  /** A string that ends with the separator splits into a last piece that is empty. */
  lemma {:induction false} SplitEndsWithEmpty(s: string, sep: char)
    requires |s| > 0 && s[|s| - 1] == sep
    ensures Split(s, sep)[|Split(s, sep)| - 1] == ""
  {
    var pieces := Split(s, sep);
    JoinedEndingInSeparator(pieces, sep, s);
  }

  /** Python's slice `s[lo:hi]` for non-negative bounds: bounds past the
      end are clamped, and an empty range gives the empty string. */
  function Slice(s: string, lo: nat, hi: nat): (r: string)
    ensures lo <= hi <= |s| ==> r == s[lo..hi]
    ensures lo <= |s| <= hi ==> r == s[lo..]
    ensures hi <= lo || |s| <= lo ==> r == ""
  {
    var a := if lo < |s| then lo else |s|;
    var b := if hi < |s| then hi else |s|;
    if a < b then s[a..b] else ""
  }

  /** `str.lower()` restricted to ASCII letters. */
  function LowerChar(c: char): char
  {
    if 'A' <= c <= 'Z' then (c as int + 32) as char else c
  }

  function ToLower(s: string): (r: string)
    ensures |r| == |s|
    ensures forall k :: 0 <= k < |s| ==> r[k] == LowerChar(s[k])
  {
    if |s| == 0 then "" else [LowerChar(s[0])] + ToLower(s[1..])
  }

  /** `s.endswith(t)` */
  predicate EndsWith(s: string, t: string)
  {
    |t| <= |s| && s[|s| - |t|..] == t
  }

  /** Every character of a contained string occurs in the containing one. */
  lemma ContainedCharsOccur(s: string, t: string, k: nat)
    requires Contains(s, t) && k < |t|
    ensures t[k] in s
  {
    var i :| OccursAt(t, s, i);
    assert s[i..i + |t|][k] == t[k];
  }

  /** A string contains every string it is built around. */
  lemma ContainsMiddle(before: string, t: string, after: string)
    ensures Contains(before + t + after, t)
  {
    var s := before + t + after;
    assert s[|before|..|before| + |t|] == t;
    assert OccursAt(t, s, |before|);
  }
}
