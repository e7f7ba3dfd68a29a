/**
 * The Python string operations the scorer relies on, written out over
 * `seq<char>`: `str.strip()` with no arguments and `str.replace("GMT", "")`.
 * It also holds `Find`, a substring search with the semantics of `str.find`
 * (here returning `None` instead of -1). The scorer does not call `str.find`;
 * the model uses `Find` to realise its fixed-pattern regular-expression search.
 */
module PyStr {
  import opened Wrappers

  /**
   * The characters Python 3's `str.isspace()` accepts, which are exactly the
   * characters that `str.strip()` with no arguments removes.
   */
  predicate IsWhitespace(c: char) {
    var n := c as int;
    (0x09 <= n <= 0x0D) || (0x1C <= n <= 0x20) || n == 0x85 || n == 0xA0 || n == 0x1680
    || (0x2000 <= n <= 0x200A) || n == 0x2028 || n == 0x2029 || n == 0x202F || n == 0x205F
    || n == 0x3000
  }

  /** Every character of `s[lo..hi]` is whitespace. */
  predicate WhitespaceBetween(s: string, lo: int, hi: int) {
    forall i | lo <= i < hi && 0 <= i < |s| :: IsWhitespace(s[i])
  }

  /** Neither the first nor the last character is whitespace. */
  predicate IsStripped(s: string) {
    s == [] || (!IsWhitespace(s[0]) && !IsWhitespace(s[|s| - 1]))
  }

  /** The length of the leading run of whitespace: where `s.lstrip()` starts. */
  function StripStart(s: string): (a: nat)
    ensures a <= |s| && WhitespaceBetween(s, 0, a)
    ensures a < |s| ==> !IsWhitespace(s[a])
  {
    if s != [] && IsWhitespace(s[0]) then
      var a := 1 + StripStart(s[1..]);
      assert forall i | 1 <= i < a :: s[i] == s[1..][i - 1];
      a
    else 0
  }

  /** The length left once the trailing run of whitespace is cut: where `s.rstrip()` ends. */
  function StripEnd(s: string): (b: nat)
    ensures b <= |s| && WhitespaceBetween(s, b, |s|)
    ensures 0 < b ==> !IsWhitespace(s[b - 1])
  {
    if s != [] && IsWhitespace(s[|s| - 1]) then
      var b := StripEnd(s[..|s| - 1]);
      assert forall i | b <= i < |s| - 1 :: s[i] == s[..|s| - 1][i];
      b
    else |s|
  }

  /**
   * `s.strip()`: the text between the leading and the trailing run of
   * whitespace, empty when `s` is whitespace throughout.
   */
  function Strip(s: string): (r: string)
    ensures IsStripped(r) && |r| <= |s|
  {
    var a, b := StripStart(s), StripEnd(s);
    if a < b then s[a..b] else []
  }

  /** `Strip(s)` is the slice of `s` at `StripStart(s)`, with only whitespace cut either side. */
  lemma StripSlice(s: string)
    ensures var a, r := StripStart(s), Strip(s);
            a + |r| <= |s| && r == s[a..a + |r|]
            && WhitespaceBetween(s, 0, a) && WhitespaceBetween(s, a + |r|, |s|)
  {
  }

  /** The leading run of whitespace is the only run with these properties. */
  lemma {:induction false} StripStartUnique(s: string, a: nat)
    requires a <= |s| && WhitespaceBetween(s, 0, a) && (a < |s| ==> !IsWhitespace(s[a]))
    ensures StripStart(s) == a
  {
    if a > 0 {
      var t := s[1..];
      assert forall i | 0 <= i < a - 1 :: t[i] == s[i + 1];
      StripStartUnique(t, a - 1);
    }
  }

  /** The trailing run of whitespace is the only run with these properties. */
  lemma {:induction false} StripEndUnique(s: string, b: nat)
    requires b <= |s| && WhitespaceBetween(s, b, |s|) && (0 < b ==> !IsWhitespace(s[b - 1]))
    ensures StripEnd(s) == b
  {
    if b < |s| {
      var t := s[..|s| - 1];
      assert forall i | b <= i < |t| :: t[i] == s[i];
      StripEndUnique(t, b);
    }
  }

  /** The cut made by `Strip` is the only one with these properties. */
  lemma StripUnique(s: string, a: int, b: int)
    requires 0 <= a <= b <= |s|
    requires WhitespaceBetween(s, 0, a) && WhitespaceBetween(s, b, |s|) && IsStripped(s[a..b])
    ensures Strip(s) == s[a..b]
  {
    if a == b {
      assert WhitespaceBetween(s, 0, |s|);
      StripStartUnique(s, |s|);
    } else {
      assert s[a] == s[a..b][0] && s[b - 1] == s[a..b][b - a - 1];
      StripStartUnique(s, a);
      StripEndUnique(s, b);
    }
  }

  /** Stripping an already stripped string changes nothing, so `Strip` is idempotent. */
  lemma StripIdempotent(s: string)
    ensures IsStripped(s) ==> Strip(s) == s
    ensures Strip(Strip(s)) == Strip(s)
  {
    if IsStripped(s) {
      assert s[0..|s|] == s;
      StripUnique(s, 0, |s|);
    }
    var t := Strip(s);
    assert t[0..|t|] == t;
    StripUnique(t, 0, |t|);
  }

  /** `Strip` only removes characters; it never brings in new ones. */
  lemma StripKeepsChars(s: string, c: char)
    ensures c in Strip(s) ==> c in s
  {
    var r, a := Strip(s), StripStart(s);
    StripSlice(s);
    if c in r {
      var m :| 0 <= m < |r| && r[m] == c;
      assert s[a + m] == c;
    }
  }

  /** `pat` occurs in `s` starting at index `i`. */
  predicate OccursAt(s: string, pat: string, i: int) {
    0 <= i && i + |pat| <= |s| && s[i..i + |pat|] == pat
  }

  /** `s.find(pat, from)`: the first index at or after `from` where `pat` occurs. */
  function Find(s: string, pat: string, from: nat): (r: Option<nat>)
    ensures r.Some? ==> from <= r.value && OccursAt(s, pat, r.value)
                        && forall k :: from <= k < r.value ==> !OccursAt(s, pat, k)
    ensures r.None? ==> forall k :: from <= k ==> !OccursAt(s, pat, k)
    decreases |s| - from
  {
    if from + |pat| > |s| then None
    else if OccursAt(s, pat, from) then Some(from)
    else Find(s, pat, from + 1)
  }

  /** A one-character pattern occurs exactly where that character stands. */
  lemma OccursAtChar(s: string, c: char, i: int)
    ensures OccursAt(s, [c], i) <==> 0 <= i < |s| && s[i] == c
  {
    if 0 <= i < |s| { assert s[i..i + 1] == [s[i]]; }
  }

  const GMT: string := "GMT"

  /** "GMT" starts at index `i` of `s`, compared character by character. */
  predicate GMTAt(s: string, i: int) {
    0 <= i && i + 3 <= |s| && s[i] == 'G' && s[i + 1] == 'M' && s[i + 2] == 'T'
  }

  /** No occurrence of "GMT" starts anywhere in `s`. */
  predicate NoGMT(s: string) {
    forall i | 0 <= i < |s| :: !GMTAt(s, i)
  }

  /** `GMTAt` is `OccursAt` for the pattern "GMT". */
  lemma GMTAtIsOccursAt(s: string, i: int)
    ensures GMTAt(s, i) <==> OccursAt(s, GMT, i)
  {
    if 0 <= i && i + 3 <= |s| {
      assert s[i..i + 3] == [s[i], s[i + 1], s[i + 2]];
    }
  }

  /**
   * `s.replace("GMT", "")`: one left-to-right scan that deletes each
   * occurrence of "GMT" it meets and resumes after it, so occurrences never
   * overlap and text that only becomes "GMT" after a deletion stays.
   */
  function RemoveGMT(s: string): (r: string)
    ensures |r| <= |s|
  {
    if GMTAt(s, 0) then RemoveGMT(s[3..])
    else if s == [] then []
    else [s[0]] + RemoveGMT(s[1..])
  }

  /** Text containing no "GMT" is left as it is. */
  lemma {:induction false} RemoveGMTNoOccurrence(s: string)
    requires NoGMT(s)
    ensures RemoveGMT(s) == s
  {
    assert !GMTAt(s, 0);
    if s != [] {
      var t := s[1..];
      forall i ensures !GMTAt(t, i) {
        assert !GMTAt(s, i + 1);
      }
      RemoveGMTNoOccurrence(t);
      assert s == [s[0]] + t;
    }
  }

  /** A prefix in which no occurrence of "GMT" starts is copied through unchanged. */
  lemma {:induction false} RemoveGMTCopiesPrefix(x: string, y: string)
    requires forall i :: 0 <= i < |x| ==> !GMTAt(x + y, i)
    ensures RemoveGMT(x + y) == x + RemoveGMT(y)
  {
    if x == [] {
      assert x + y == y;
    } else {
      var s, x' := x + y, x[1..];
      assert !GMTAt(s, 0);
      assert s[1..] == x' + y;
      forall i | 0 <= i < |x'| ensures !GMTAt(x' + y, i) {
        assert !GMTAt(s, i + 1);
      }
      RemoveGMTCopiesPrefix(x', y);
      assert x + RemoveGMT(y) == [x[0]] + (x' + RemoveGMT(y));
    }
  }

  /**
   * One pass of the removal can leave a "GMT" behind: deleting the inner
   * "GMT" of "GGMTMT" brings its neighbours together into a new one.
   */
  lemma RemoveGMTNotIdempotent(s: string)
    requires s == "GGMTMT"
    ensures RemoveGMT(s) == "GMT"
    ensures RemoveGMT(RemoveGMT(s)) == ""
  {
    var t0, t1, t2 := s[1..], s[4..], s[5..];
    assert RemoveGMT(t2) == t2;
    assert RemoveGMT(t1) == t1;
    assert RemoveGMT(t0) == t1;
    var once := RemoveGMT(s);
    assert once == [s[0]] + t1;
    assert GMTAt(once, 0) && once[3..] == [];
  }

  /** Without a letter G there is no "GMT" to remove. */
  lemma RemoveGMTWithoutG(s: string)
    requires 'G' !in s
    ensures RemoveGMT(s) == s
  {
    forall i | 0 <= i < |s| ensures !GMTAt(s, i) {
      assert s[i] in s;
    }
    RemoveGMTNoOccurrence(s);
  }

  /** A trailing "GMT" after text without a letter G is all that is removed. */
  lemma RemoveGMTSuffix(s: string)
    requires 'G' !in s
    ensures RemoveGMT(s + GMT) == s
  {
    forall i | 0 <= i < |s| ensures !GMTAt(s + GMT, i) {
      assert (s + GMT)[i] == s[i] && s[i] in s;
    }
    RemoveGMTCopiesPrefix(s, GMT);
    assert GMTAt(GMT, 0) && GMT[3..] == [];
    assert s + [] == s;
  }

  /** A date written without the letter G, with or without " GMT" after it, comes out as itself. */
  lemma StripRemoveGMTOfDate(body: string)
    requires IsStripped(body) && 'G' !in body
    ensures Strip(RemoveGMT(body)) == body
    ensures Strip(RemoveGMT(body + [' '] + GMT)) == body
  {
    RemoveGMTWithoutG(body);
    StripIdempotent(body);
    var padded := body + [' '];
    assert 'G' !in padded;
    RemoveGMTSuffix(padded);
    assert padded[0..|body|] == body;
    StripUnique(padded, 0, |body|);
  }

  /** `GMT.join(ps)`. */
  function JoinGMT(ps: seq<string>): string
    requires |ps| >= 1
  {
    if |ps| == 1 then ps[0] else ps[0] + GMT + JoinGMT(ps[1..])
  }

  /** `"".join(ps)`. */
  function Concat(ps: seq<string>): string {
    if ps == [] then [] else ps[0] + Concat(ps[1..])
  }

  /**
   * `ps` is what `s.split("GMT")` returns: joining the pieces with "GMT"
   * gives back `s`, the last piece holds no "GMT", and every earlier piece is
   * followed by the leftmost "GMT" that starts at or after it, so that even
   * the piece followed by "GM" holds no "GMT".
   */
  ghost predicate IsGMTSplit(s: string, ps: seq<string>) {
    |ps| >= 1 && JoinGMT(ps) == s
    && (forall k :: 0 <= k < |ps| - 1 ==> NoGMT(ps[k] + ['G', 'M']))
    && NoGMT(ps[|ps| - 1])
  }

  /**
   * Reference semantics of Python's replace: `s.replace("GMT", "")` equals
   * `"".join(s.split("GMT"))`, for every way of writing `s` as such a split.
   */
  lemma {:induction false} RemoveGMTOfSplit(s: string, ps: seq<string>)
    requires IsGMTSplit(s, ps)
    ensures RemoveGMT(s) == Concat(ps)
    decreases |ps|
  {
    if |ps| == 1 {
      RemoveGMTNoOccurrence(s);
      assert Concat(ps) == ps[0] + Concat([]);
    } else {
      var p, rest := ps[0], JoinGMT(ps[1..]);
      var q := p + ['G', 'M'];
      assert s == p + (GMT + rest);
      forall i | 0 <= i < |p| ensures !GMTAt(s, i) {
        assert !GMTAt(q, i);
        assert s[i] == q[i] && s[i + 1] == q[i + 1] && s[i + 2] == q[i + 2];
      }
      RemoveGMTCopiesPrefix(p, GMT + rest);
      assert GMTAt(GMT + rest, 0);
      assert (GMT + rest)[3..] == rest;
      assert IsGMTSplit(rest, ps[1..]) by {
        var qs := ps[1..];
        forall k | 0 <= k < |qs| - 1 ensures NoGMT(qs[k] + ['G', 'M']) {
          assert qs[k] == ps[k + 1];
        }
      }
      RemoveGMTOfSplit(rest, ps[1..]);
    }
  }

  /** `s.split("GMT")`. */
  function SplitGMT(s: string): (ps: seq<string>)
    ensures |ps| >= 1
  {
    if GMTAt(s, 0) then [""] + SplitGMT(s[3..])
    else if s == [] then [""]
    else
      var t := SplitGMT(s[1..]);
      [[s[0]] + t[0]] + t[1..]
  }

  /** A split of `rest` gives a split of `"GMT" + rest`: an empty piece in front. */
  lemma SplitAfterGMT(rest: string, t: seq<string>)
    requires IsGMTSplit(rest, t)
    ensures IsGMTSplit(GMT + rest, [""] + t)
  {
    var ps := [""] + t;
    assert ps[1..] == t;
    assert NoGMT(ps[0] + ['G', 'M']) by {
      assert |ps[0] + ['G', 'M']| == 2;
    }
    forall k | 0 <= k < |ps| - 1 ensures NoGMT(ps[k] + ['G', 'M']) {
      if k > 0 { assert ps[k] == t[k - 1]; }
    }
  }

  /**
   * A split of `rest` gives a split of `[c] + rest` when no "GMT" starts at
   * `c`: the character joins the first piece.
   */
  lemma SplitAfterChar(c: char, rest: string, t: seq<string>)
    requires IsGMTSplit(rest, t) && !GMTAt([c] + rest, 0)
    ensures IsGMTSplit([c] + rest, [[c] + t[0]] + t[1..])
  {
    var s, p := [c] + rest, [c] + t[0];
    var ps := [p] + t[1..];
    if |t| == 1 {
      forall i | 0 <= i < |s| ensures !GMTAt(s, i) {
        if i > 0 { assert !GMTAt(t[0], i - 1); }
      }
    } else {
      assert ps[1..] == t[1..];
      assert JoinGMT(ps) == [c] + JoinGMT(t);
      var q, q' := p + ['G', 'M'], t[0] + ['G', 'M'];
      assert s[..3] == q[..3];
      forall i | 0 <= i < |q| ensures !GMTAt(q, i) {
        if i > 0 {
          assert !GMTAt(q', i - 1);
          assert q[1..] == q';
        }
      }
      forall k | 0 <= k < |ps| - 1 ensures NoGMT(ps[k] + ['G', 'M']) {
        if k > 0 { assert ps[k] == t[k]; }
      }
    }
  }

  /** `SplitGMT` returns a split in the sense of `IsGMTSplit`, so every string has one. */
  lemma {:induction false} SplitGMTIsSplit(s: string)
    ensures IsGMTSplit(s, SplitGMT(s))
  {
    if GMTAt(s, 0) {
      SplitGMTIsSplit(s[3..]);
      assert s == GMT + s[3..];
      SplitAfterGMT(s[3..], SplitGMT(s[3..]));
    } else if s != [] {
      SplitGMTIsSplit(s[1..]);
      assert s == [s[0]] + s[1..];
      SplitAfterChar(s[0], s[1..], SplitGMT(s[1..]));
    }
  }
}
