/**
 * The two JavaScript string operations the recipient list is parsed with:
 * `String.prototype.split` with a one-character separator and
 * `String.prototype.trim`, plus `Array.prototype.join` as the inverse of split.
 */
module Strings {

  /** ECMAScript WhiteSpace and LineTerminator code points: what `trim` removes. */
  predicate IsJsWhitespace(c: char)
  {
    || c == '\t' || c == '\n' || c == '\U{000B}' || c == '\U{000C}' || c == '\r'
    || c == ' ' || c == '\U{00A0}' || c == '\U{1680}'
    || ('\U{2000}' <= c <= '\U{200A}')
    || c == '\U{2028}' || c == '\U{2029}' || c == '\U{202F}' || c == '\U{205F}'
    || c == '\U{3000}' || c == '\U{FEFF}'
  }

  /** Every character of `s` in `[lo, hi)` is whitespace. */
  predicate WhitespaceBetween(s: string, lo: int, hi: int)
    requires 0 <= lo && hi <= |s|
  {
    forall j :: lo <= j < hi ==> IsJsWhitespace(s[j])
  }

  predicate AllWhitespace(s: string)
  {
    WhitespaceBetween(s, 0, |s|)
  }

  /** Neither the first nor the last character of `s` is whitespace. */
  predicate IsTrimmed(s: string)
  {
    s == [] || (!IsJsWhitespace(s[0]) && !IsJsWhitespace(s[|s| - 1]))
  }

  /**
   * `r` is what is left of `s` after dropping `i` leading whitespace
   * characters and a whitespace suffix, and `r` has no whitespace at either end.
   */
  predicate IsTrimAt(s: string, r: string, i: int)
  {
    0 <= i <= |s| - |r| && s[i..i + |r|] == r
    && WhitespaceBetween(s, 0, i) && WhitespaceBetween(s, i + |r|, |s|) && IsTrimmed(r)
  }

  /** `r` is `s` with a whitespace prefix and suffix removed and nothing more removable: the meaning of `s.trim()`. */
  ghost predicate IsTrimOf(s: string, r: string)
  {
    exists i :: IsTrimAt(s, r, i)
  }

  // ---------------------------------------------------------------- trim

  /** Where the text of `s` starts, scanning forward from `i` over whitespace. */
  function TextStart(s: string, i: nat): (k: nat)
    requires i <= |s|
    ensures i <= k <= |s|
    ensures WhitespaceBetween(s, i, k)
    ensures k == |s| || !IsJsWhitespace(s[k])
    decreases |s| - i
  {
    if i < |s| && IsJsWhitespace(s[i]) then TextStart(s, i + 1) else i
  }

  /** Where the text of `s` ends, scanning backward from `j` over whitespace, not below `lo`. */
  function TextEnd(s: string, lo: nat, j: nat): (k: nat)
    requires lo <= j <= |s|
    ensures lo <= k <= j
    ensures WhitespaceBetween(s, k, j)
    ensures k == lo || !IsJsWhitespace(s[k - 1])
    decreases j
  {
    if j > lo && IsJsWhitespace(s[j - 1]) then TextEnd(s, lo, j - 1) else j
  }

  /** `s.trim()`: leading whitespace is skipped first, then trailing whitespace down to it. */
  function Trim(s: string): string
  {
    var lo := TextStart(s, 0);
    s[lo..TextEnd(s, lo, |s|)]
  }

  /** `Trim(s)` is a trim of `s`. */
  lemma TrimSpec(s: string)
    ensures IsTrimOf(s, Trim(s))
  {
    var lo := TextStart(s, 0);
    var hi := TextEnd(s, lo, |s|);
    var r := s[lo..hi];
    assert r != [] ==> r[0] == s[lo] && r[|r| - 1] == s[hi - 1];
    assert IsTrimAt(s, r, lo);
  }

  /** Any trim of `s` is `Trim(s)`, so `IsTrimOf` fully specifies `Trim`. */
  lemma TrimOfIsTrim(s: string, r: string)
    requires IsTrimOf(s, r)
    ensures r == Trim(s)
  {
    var i :| IsTrimAt(s, r, i);
    var lo := TextStart(s, 0);
    var hi := TextEnd(s, lo, |s|);
    if r == [] {
      assert forall j :: 0 <= j < |s| ==> IsJsWhitespace(s[j]) by {
        forall j | 0 <= j < |s| ensures IsJsWhitespace(s[j]) {
          if j < i { assert WhitespaceBetween(s, 0, i); } else { assert WhitespaceBetween(s, i, |s|); }
        }
      }
      assert lo == |s|;
    } else {
      assert s[i] == r[0] && s[i + |r| - 1] == r[|r| - 1];
      assert lo == i;
      assert hi == i + |r|;
    }
  }

  /** Only one string is a trim of `s`. */
  lemma TrimOfUnique(s: string, r1: string, r2: string)
    requires IsTrimOf(s, r1) && IsTrimOf(s, r2)
    ensures r1 == r2
  {
    TrimOfIsTrim(s, r1);
    TrimOfIsTrim(s, r2);
  }

  /** Trimming leaves a string without whitespace at either end unchanged. */
  lemma TrimOfTrimmed(s: string)
    requires IsTrimmed(s)
    ensures Trim(s) == s
  {
    assert s[0..0 + |s|] == s;
    assert IsTrimAt(s, s, 0);
    TrimOfIsTrim(s, s);
  }

  /** Trimming a string made only of whitespace leaves nothing. */
  lemma TrimOfWhitespace(s: string)
    requires AllWhitespace(s)
    ensures Trim(s) == ""
  {
    assert IsTrimAt(s, "", |s|);
    TrimOfIsTrim(s, "");
  }

  /** A trim has no whitespace at either end and no character its input lacks. */
  lemma TrimAddsNothing(s: string)
    ensures IsTrimmed(Trim(s))
    ensures forall c :: c in Trim(s) ==> c in s
  {
    var lo := TextStart(s, 0);
    var hi := TextEnd(s, lo, |s|);
    var r := s[lo..hi];
    assert r != [] ==> r[0] == s[lo] && r[|r| - 1] == s[hi - 1];
    forall c | c in r ensures c in s {
      var k :| 0 <= k < |r| && r[k] == c;
      assert s[lo + k] == c;
    }
  }

  /** Trimming twice is trimming once. */
  lemma TrimIdempotent(s: string)
    ensures Trim(Trim(s)) == Trim(s)
  {
    TrimAddsNothing(s);
    TrimOfTrimmed(Trim(s));
  }

  // ---------------------------------------------------------------- split / join

  /**
   * `s.split(sep)` for a one-character separator: the maximal runs of
   * characters other than `sep`, in order, empty runs included; the empty
   * string splits into one empty piece.
   */
  function Split(s: string, sep: char): (pieces: seq<string>)
    ensures |pieces| >= 1
    ensures forall i :: 0 <= i < |pieces| ==> sep !in pieces[i]
    decreases |s|
  {
    if s == [] then [""]
    else if s[0] == sep then [""] + Split(s[1..], sep)
    else
      var rest := Split(s[1..], sep);
      [[s[0]] + rest[0]] + rest[1..]
  }

  /** `pieces.join(sep)`. */
  function Join(pieces: seq<string>, sep: char): string
    decreases |pieces|
  {
    if pieces == [] then ""
    else if |pieces| == 1 then pieces[0]
    else pieces[0] + [sep] + Join(pieces[1..], sep)
  }

  /** Joining the pieces of a split with the same separator gives the input back. */
  lemma {:induction false} JoinSplit(s: string, sep: char)
    ensures Join(Split(s, sep), sep) == s
    decreases |s|
  {
    if s == [] {
    } else if s[0] == sep {
      JoinSplit(s[1..], sep);
      var rest := Split(s[1..], sep);
      assert Split(s, sep) == [""] + rest;
      assert ([""] + rest)[1..] == rest;
    } else {
      JoinSplit(s[1..], sep);
      var rest := Split(s[1..], sep);
      var first := [s[0]] + rest[0];
      assert Split(s, sep) == [first] + rest[1..];
      if |rest| == 1 {
        assert s == [s[0]] + s[1..];
      } else {
        assert ([first] + rest[1..])[1..] == rest[1..];
        assert Join(rest, sep) == rest[0] + [sep] + Join(rest[1..], sep);
        assert s == [s[0]] + s[1..];
      }
    }
  }

  /** Splitting a join of separator-free pieces gives the pieces back. */
  lemma {:induction false} SplitJoin(pieces: seq<string>, sep: char)
    requires |pieces| >= 1
    requires forall i :: 0 <= i < |pieces| ==> sep !in pieces[i]
    ensures Split(Join(pieces, sep), sep) == pieces
    decreases |pieces|, |pieces[0]|
  {
    var p := pieces[0];
    if p == [] {
      if |pieces| > 1 {
        SplitJoin(pieces[1..], sep);
        assert Join(pieces, sep) == [sep] + Join(pieces[1..], sep);
        assert ([sep] + Join(pieces[1..], sep))[1..] == Join(pieces[1..], sep);
      }
    } else {
      var tail := [p[1..]] + pieces[1..];
      assert sep !in tail[0] by {
        assert p == [p[0]] + p[1..];
      }
      SplitJoin(tail, sep);
      var s := Join(pieces, sep);
      assert s == [p[0]] + Join(tail, sep) by {
        if |pieces| == 1 {
          assert p == [p[0]] + p[1..];
        } else {
          assert tail[1..] == pieces[1..];
          assert p == [p[0]] + p[1..];
        }
      }
      assert s[1..] == Join(tail, sep);
      assert p[0] != sep;
      assert pieces == [[p[0]] + tail[0]] + tail[1..];
    }
  }

  /** A separator in the input joins the splits of the two sides, in order. */
  lemma {:induction false} SplitAppend(a: string, b: string, sep: char)
    requires sep !in a
    ensures Split(a + [sep] + b, sep) == [a] + Split(b, sep)
    decreases |a|
  {
    var s := a + [sep] + b;
    if a == [] {
      assert s[1..] == b;
    } else {
      assert s[1..] == a[1..] + [sep] + b;
      assert sep !in a[1..];
      SplitAppend(a[1..], b, sep);
      assert a == [a[0]] + a[1..];
    }
  }

  /** A string without the separator splits into itself. */
  lemma {:induction false} SplitNoSeparator(a: string, sep: char)
    requires sep !in a
    ensures Split(a, sep) == [a]
    decreases |a|
  {
    if a != [] {
      assert sep !in a[1..];
      SplitNoSeparator(a[1..], sep);
      assert a == [a[0]] + a[1..];
    }
  }
}
