/**
 * The PHP string built-ins the discovery service relies on, with the
 * semantics of PHP 8 on byte strings (modelled as `string`):
 * `str_replace` with an empty replacement, `explode` on a one-character
 * delimiter, `trim`, `strtolower`, `strpos` and `substr(s, 0, 1)`.
 */
module PhpStrings {
  import opened Optional

  // ---------------------------------------------------------------------
  // str_replace(pat, '', s)
  // ---------------------------------------------------------------------

  /**
   * `str_replace(pat, '', s)`: scans `s` from the left and drops every
   * occurrence of `pat`, never re-examining text after a removal point.
   * An empty search string leaves the subject unchanged.
   */
  function RemoveAll(s: string, pat: string): (r: string)
    ensures |r| <= |s|
    ensures pat != [] && pat <= s ==> |r| <= |s| - |pat|
    decreases |s|
  {
    if pat == [] || |s| == 0 then s
    else if pat <= s then RemoveAll(s[|pat|..], pat)
    else [s[0]] + RemoveAll(s[1..], pat)
  }

  /** A pattern whose first character never occurs in `s` removes nothing. */
  lemma {:induction false} RemoveAllNoFirstChar(s: string, pat: string)
    requires pat != [] && pat[0] !in s
    ensures RemoveAll(s, pat) == s
    decreases |s|
  {
    if |s| > 0 {
      assert !(pat <= s) by { assert s[0] != pat[0]; }
      assert pat[0] !in s[1..] by {
        forall k | 0 <= k < |s[1..]| ensures s[1..][k] != pat[0] { assert s[1..][k] == s[k + 1]; }
      }
      RemoveAllNoFirstChar(s[1..], pat);
      assert s == [s[0]] + s[1..];
    }
  }

  /** A leading occurrence of the pattern is dropped. */
  lemma RemoveAllLeading(pat: string, rest: string)
    requires pat != []
    ensures RemoveAll(pat + rest, pat) == RemoveAll(rest, pat)
  {
    assert pat <= pat + rest;
    assert (pat + rest)[|pat|..] == rest;
  }

  /** Text free of the pattern's first character passes through unchanged. */
  lemma {:induction false} RemoveAllSkipsClean(clean: string, rest: string, pat: string)
    requires pat != [] && pat[0] !in clean
    ensures RemoveAll(clean + rest, pat) == clean + RemoveAll(rest, pat)
    decreases |clean|
  {
    if clean != [] {
      var s := clean + rest;
      assert s[0] == clean[0] != pat[0];
      assert !(pat <= s);
      assert pat[0] !in clean[1..] by {
        forall k | 0 <= k < |clean[1..]| ensures clean[1..][k] != pat[0] { assert clean[1..][k] == clean[k + 1]; }
      }
      RemoveAllSkipsClean(clean[1..], rest, pat);
      assert s[1..] == clean[1..] + rest;
      assert RemoveAll(s, pat) == [s[0]] + RemoveAll(s[1..], pat);
      assert clean == [clean[0]] + clean[1..];
      assert [clean[0]] + (clean[1..] + RemoveAll(rest, pat)) == clean + RemoveAll(rest, pat);
    } else {
      assert clean + rest == rest;
    }
  }

  /**
   * Removing a single character deletes exactly that character: the result
   * holds every other character of `s` and never the removed one.
   */
  lemma {:induction false} RemoveCharExact(s: string, c: char)
    ensures c !in RemoveAll(s, [c])
    ensures forall x :: x in RemoveAll(s, [c]) <==> x in s && x != c
    decreases |s|
  {
    if |s| > 0 {
      RemoveCharExact(s[1..], c);
      assert forall x :: x in s <==> x == s[0] || x in s[1..];
      if [c] <= s {
        assert s[0] == c;
      } else {
        assert s[0] != c;
      }
    }
  }

  /** Removing one character works as a filter: it distributes over concatenation. */
  lemma {:induction false} RemoveCharConcat(a: string, b: string, c: char)
    ensures RemoveAll(a + b, [c]) == RemoveAll(a, [c]) + RemoveAll(b, [c])
    decreases |a|
  {
    if a == [] {
      assert a + b == b;
    } else {
      var s := a + b;
      assert s[0] == a[0] && s[1..] == a[1..] + b;
      RemoveCharConcat(a[1..], b, c);
      if [c] <= a {
        assert [c] <= s;
      } else {
        assert !([c] <= s);
      }
    }
  }

  /** On one character, removing `c` keeps every other character and drops `c` itself. */
  lemma RemoveCharSingle(x: char, c: char)
    ensures RemoveAll([x], [c]) == if x == c then [] else [x]
  {
    assert [x][1..] == [];
  }

  // ---------------------------------------------------------------------
  // explode(sep, s)
  // ---------------------------------------------------------------------

  /**
   * `explode(sep, s)` for a one-character delimiter: the pieces between
   * delimiters, in order; never empty, and `explode(sep, '') == ['']`.
   */
  function Explode(sep: char, s: string): (parts: seq<string>)
    ensures |parts| >= 1
    decreases |s|
  {
    if |s| == 0 then [""]
    else if s[0] == sep then [""] + Explode(sep, s[1..])
    else
      var rest := Explode(sep, s[1..]);
      [[s[0]] + rest[0]] + rest[1..]
  }

  /** No piece of `explode` holds the delimiter. */
  lemma {:induction false} ExplodePiecesClean(sep: char, s: string)
    ensures forall i :: 0 <= i < |Explode(sep, s)| ==> sep !in Explode(sep, s)[i]
    decreases |s|
  {
    if |s| > 0 {
      ExplodePiecesClean(sep, s[1..]);
      var rest := Explode(sep, s[1..]);
      if s[0] != sep {
        var parts := Explode(sep, s);
        assert parts == [[s[0]] + rest[0]] + rest[1..];
        forall i | 0 <= i < |parts| ensures sep !in parts[i] {
          if i > 0 { assert parts[i] == rest[i]; }
        }
      }
    }
  }

  /** `implode(sep, parts)`: the inverse of Explode. */
  function Implode(sep: char, parts: seq<string>): string
    requires |parts| >= 1
    decreases |parts|
  {
    if |parts| == 1 then parts[0] else parts[0] + [sep] + Implode(sep, parts[1..])
  }

  /** Joining the pieces back with the delimiter gives the original text. */
  lemma {:induction false} ImplodeExplode(sep: char, s: string)
    ensures Implode(sep, Explode(sep, s)) == s
    decreases |s|
  {
    if |s| > 0 {
      ImplodeExplode(sep, s[1..]);
      var rest := Explode(sep, s[1..]);
      if s[0] == sep {
        assert Explode(sep, s)[1..] == rest;
      } else {
        var parts := Explode(sep, s);
        assert parts[1..] == rest[1..];
        if |rest| == 1 {
          assert Implode(sep, parts) == [s[0]] + rest[0];
        } else {
          assert Implode(sep, rest) == rest[0] + [sep] + Implode(sep, rest[1..]);
          assert Implode(sep, parts) == [s[0]] + rest[0] + [sep] + Implode(sep, rest[1..]);
        }
      }
    }
  }

  /** Splitting a join of delimiter-free pieces gives those pieces back. */
  lemma {:induction false} ExplodeImplode(sep: char, parts: seq<string>)
    requires |parts| >= 1
    requires forall i :: 0 <= i < |parts| ==> sep !in parts[i]
    ensures Explode(sep, Implode(sep, parts)) == parts
    decreases |parts|
  {
    if |parts| == 1 {
      ExplodeNoSep(sep, parts[0]);
    } else {
      var tail := parts[1..];
      assert forall i :: 0 <= i < |tail| ==> sep !in tail[i] by {
        forall i | 0 <= i < |tail| ensures sep !in tail[i] { assert tail[i] == parts[i + 1]; }
      }
      ExplodeImplode(sep, tail);
      ExplodeFirstPiece(sep, parts[0], Implode(sep, tail));
      assert parts == [parts[0]] + tail;
    }
  }

  /** A delimiter-free piece followed by the delimiter becomes the first part. */
  lemma {:induction false} ExplodeFirstPiece(sep: char, piece: string, rest: string)
    requires sep !in piece
    ensures Explode(sep, piece + [sep] + rest) == [piece] + Explode(sep, rest)
    decreases |piece|
  {
    var s := piece + [sep] + rest;
    if piece == [] {
      assert s[1..] == rest;
    } else {
      assert sep !in piece[1..] by {
        forall k | 0 <= k < |piece[1..]| ensures piece[1..][k] != sep { assert piece[1..][k] == piece[k + 1]; }
      }
      ExplodeFirstPiece(sep, piece[1..], rest);
      assert s[1..] == piece[1..] + [sep] + rest;
      assert s[0] == piece[0] && s[0] != sep;
      assert piece == [piece[0]] + piece[1..];
    }
  }

  /** Delimiter-free text explodes into itself. */
  lemma {:induction false} ExplodeNoSep(sep: char, s: string)
    requires sep !in s
    ensures Explode(sep, s) == [s]
    decreases |s|
  {
    if |s| > 0 {
      assert sep !in s[1..] by {
        forall k | 0 <= k < |s[1..]| ensures s[1..][k] != sep { assert s[1..][k] == s[k + 1]; }
      }
      ExplodeNoSep(sep, s[1..]);
      assert s == [s[0]] + s[1..];
    }
  }

  /** A separator-free piece and the separator in front of a text add that piece in front of its pieces. */
  lemma ExplodeStep(sep: char, w: string, tail: seq<string>, x: string, after: string, e: seq<string>)
    requires sep !in w
    requires x == w + [sep] + after
    requires Explode(sep, after) == tail + e
    ensures Explode(sep, x) == [w] + tail + e
  {
    ExplodeFirstPiece(sep, w, after);
  }

  lemma SpacedTwo(a: string, b: string, rest: string)
    ensures a + " " + b + " " + rest == a + [' '] + (b + [' '] + rest)
  {
  }

  lemma SpacedThree(a: string, b: string, c: string, rest: string)
    ensures a + " " + b + " " + c + " " + rest == a + [' '] + (b + [' '] + (c + [' '] + rest))
  {
  }

  /** Two space-free words, each followed by a space, are the first two pieces. */
  lemma ExplodeTwoWords(a: string, b: string, rest: string)
    requires ' ' !in a && ' ' !in b
    ensures Explode(' ', a + " " + b + " " + rest) == [a, b] + Explode(' ', rest)
  {
    var e := Explode(' ', rest);
    var x2 := b + [' '] + rest;
    var x1 := a + [' '] + x2;
    SpacedTwo(a, b, rest);
    ExplodeStep(' ', b, [], x2, rest, e);
    ExplodeStep(' ', a, [b], x1, x2, e);
  }

  /** Three space-free words, each followed by a space, are the first three pieces. */
  lemma ExplodeThreeWords(a: string, b: string, c: string, rest: string)
    requires ' ' !in a && ' ' !in b && ' ' !in c
    ensures Explode(' ', a + " " + b + " " + c + " " + rest) == [a, b, c] + Explode(' ', rest)
  {
    var e := Explode(' ', rest);
    var x3 := c + [' '] + rest;
    var x2 := b + [' '] + x3;
    var x1 := a + [' '] + x2;
    SpacedThree(a, b, c, rest);
    ExplodeStep(' ', c, [], x3, rest, e);
    ExplodeStep(' ', b, [c], x2, x3, e);
    ExplodeStep(' ', a, [b, c], x1, x2, e);
  }

  /**
   * `$words[k]` after `explode`: PHP reads a missing index as null, and
   * the callers pass it to `trim`/`str_replace`, which turn null into ''.
   */
  function Word(words: seq<string>, k: nat): string {
    if k < |words| then words[k] else ""
  }

  /** A word of an `explode` result never holds the separator, and is one of its pieces or ''. */
  lemma WordClean(sep: char, s: string, k: nat)
    ensures sep !in Word(Explode(sep, s), k)
    ensures Word(Explode(sep, s), k) == "" || Word(Explode(sep, s), k) in Explode(sep, s)
  {
    ExplodePiecesClean(sep, s);
  }

  // ---------------------------------------------------------------------
  // trim(s)
  // ---------------------------------------------------------------------

  /** The characters `trim` strips by default: " \t\n\r\0\x0B". */
  predicate IsTrimChar(c: char) {
    c == ' ' || c == '\t' || c == '\n' || c == '\r' || c == '\0' || c == '\U{000B}'
  }

  /** `ltrim(s)`: a suffix of `s`; what it drops is all whitespace. */
  function TrimStart(s: string): (r: string)
    ensures |r| <= |s| && r == s[|s| - |r|..]
    ensures forall k :: 0 <= k < |s| - |r| ==> IsTrimChar(s[k])
    ensures r == [] || !IsTrimChar(r[0])
    decreases |s|
  {
    if |s| > 0 && IsTrimChar(s[0]) then TrimStart(s[1..]) else s
  }

  /** `rtrim(s)`: a prefix of `s`; what it drops is all whitespace. */
  function TrimEnd(s: string): (r: string)
    ensures r <= s
    ensures forall k :: |r| <= k < |s| ==> IsTrimChar(s[k])
    ensures r == [] || !IsTrimChar(r[|r| - 1])
    decreases |s|
  {
    if |s| > 0 && IsTrimChar(s[|s| - 1]) then TrimEnd(s[..|s| - 1]) else s
  }

  /** `s[i..j]` is what remains of `s` once whitespace is cut from both ends up to `i` and from `j`. */
  predicate TrimmedSlice(s: string, i: int, j: int) {
    0 <= i <= j <= |s| &&
    (forall k :: 0 <= k < i ==> IsTrimChar(s[k])) &&
    (forall k :: j <= k < |s| ==> IsTrimChar(s[k]))
  }

  /**
   * `trim(s)`: the middle `s[i..j]` of `s`, where everything cut off on
   * either side is whitespace and neither end of the result is.
   */
  function Trim(s: string): (r: string)
    ensures exists i, j :: TrimmedSlice(s, i, j) && r == s[i..j]
    ensures r == [] || (!IsTrimChar(r[0]) && !IsTrimChar(r[|r| - 1]))
  {
    var t := TrimStart(s);
    var r := TrimEnd(t);
    TrimBothEnds(s, t, r);
    assert r == [] || r[0] == t[0];
    r
  }

  lemma TrimBothEnds(s: string, t: string, r: string)
    requires |t| <= |s| && t == s[|s| - |t|..]
    requires forall k :: 0 <= k < |s| - |t| ==> IsTrimChar(s[k])
    requires r <= t
    requires forall k :: |r| <= k < |t| ==> IsTrimChar(t[k])
    ensures TrimmedSlice(s, |s| - |t|, |s| - |t| + |r|) && r == s[|s| - |t|..|s| - |t| + |r|]
  {
    var i := |s| - |t|;
    var j := i + |r|;
    forall k | j <= k < |s| ensures IsTrimChar(s[k]) {
      assert s[k] == t[k - i];
    }
    assert r == t[..|r|];
  }

  /** `trim` only cuts: a character absent from the text is absent from the result. */
  lemma TrimOmits(s: string, c: char)
    requires c !in s
    ensures c !in Trim(s)
  {
    var r := Trim(s);
    var i, j :| TrimmedSlice(s, i, j) && r == s[i..j];
    forall k | 0 <= k < j - i ensures s[i..j][k] != c {
      assert s[i..j][k] == s[i + k];
    }
  }

  /** Whitespace around a text whose ends are not whitespace is exactly what `trim` removes. */
  lemma TrimSurrounded(pre: string, w: string, post: string)
    requires forall k :: 0 <= k < |pre| ==> IsTrimChar(pre[k])
    requires forall k :: 0 <= k < |post| ==> IsTrimChar(post[k])
    requires w == [] || (!IsTrimChar(w[0]) && !IsTrimChar(w[|w| - 1]))
    ensures Trim(pre + w + post) == w
  {
    var s := pre + w + post;
    var n := |pre| + |w|;
    assert forall k :: 0 <= k < |pre| ==> IsTrimChar(s[k]) by {
      forall k | 0 <= k < |pre| ensures IsTrimChar(s[k]) { assert s[k] == pre[k]; }
    }
    assert forall k :: n <= k < |s| ==> IsTrimChar(s[k]) by {
      forall k | n <= k < |s| ensures IsTrimChar(s[k]) { assert s[k] == post[k - n]; }
    }
    assert s[|pre|..n] == w;
    TrimPinned(s, |pre|, n);
  }

  /**
   * When everything outside `s[a..b]` is whitespace and `s[a..b]` neither
   * starts nor ends with whitespace, `trim` gives exactly `s[a..b]`.
   */
  lemma TrimPinned(s: string, a: int, b: int)
    requires 0 <= a <= b <= |s|
    requires forall k :: 0 <= k < a ==> IsTrimChar(s[k])
    requires forall k :: b <= k < |s| ==> IsTrimChar(s[k])
    requires a == b || (!IsTrimChar(s[a]) && !IsTrimChar(s[b - 1]))
    ensures Trim(s) == s[a..b]
  {
    var r := Trim(s);
    var i, j :| TrimmedSlice(s, i, j) && r == s[i..j];
    if a < b {
      assert i <= a && b <= j;
      assert r[0] == s[i] && r[|r| - 1] == s[j - 1];
      assert i == a && j == b;
    }
  }

  /** Text already free of surrounding whitespace is left as it is. */
  lemma TrimClean(s: string)
    requires s == [] || (!IsTrimChar(s[0]) && !IsTrimChar(s[|s| - 1]))
    ensures Trim(s) == s
  {
  }

  // ---------------------------------------------------------------------
  // strtolower(s)
  // ---------------------------------------------------------------------

  /** PHP 8 `strtolower` on one byte: ASCII 'A'..'Z' only. */
  function LowerChar(c: char): char {
    if 'A' <= c <= 'Z' then (c as int + 32) as char else c
  }

  /** `strtolower(s)`, character by character. */
  function Lower(s: string): string {
    seq(|s|, k requires 0 <= k < |s| => LowerChar(s[k]))
  }

  /**
   * A character lowers to a given lower-case letter exactly when it is that
   * letter or its upper-case form; the result is never upper case, and
   * lowering twice changes nothing more.
   */
  lemma LowerCharSpec(c: char, l: char)
    requires 'a' <= l <= 'z'
    ensures LowerChar(c) == l <==> c == l || c as int == l as int - 32
    ensures !('A' <= LowerChar(c) <= 'Z')
    ensures LowerChar(LowerChar(c)) == LowerChar(c)
  {
  }

  /** `strtolower` leaves no upper-case letter, and applying it again changes nothing. */
  lemma LowerNoUpper(s: string)
    ensures |Lower(s)| == |s|
    ensures forall k :: 0 <= k < |s| ==> !('A' <= Lower(s)[k] <= 'Z')
    ensures Lower(Lower(s)) == Lower(s)
  {
    var r := Lower(s);
    forall k | 0 <= k < |s| ensures !('A' <= r[k] <= 'Z') && LowerChar(r[k]) == r[k] {
      assert r[k] == LowerChar(s[k]);
    }
  }

  /**
   * The case-insensitive prefix test: `s` starts with `word` when each of
   * its first characters is the letter of `word` or its upper-case form
   * `upper`.
   */
  lemma StartsWithNoCaseIff(s: string, word: string, upper: string)
    requires |upper| == |word|
    requires forall k :: 0 <= k < |word| ==> 'a' <= word[k] <= 'z' && upper[k] as int == word[k] as int - 32
    ensures StartsWithNoCase(s, word) <==>
      |s| >= |word| && forall k :: 0 <= k < |word| ==> s[k] == word[k] || s[k] == upper[k]
  {
    if |s| >= |word| {
      var low := Lower(s[..|word|]);
      forall k | 0 <= k < |word| ensures low[k] == word[k] <==> s[k] == word[k] || s[k] == upper[k] {
        LowerCharSpec(s[k], word[k]);
      }
      if forall k :: 0 <= k < |word| ==> s[k] == word[k] || s[k] == upper[k] {
        assert low == word;
      }
    }
  }

  /**
   * `strtolower(substr(s, 0, n)) == word` for a lower-case `word` of length
   * `n`: comparing the first n characters case-insensitively. A shorter
   * `s` gives a shorter substring, which never equals `word`.
   */
  predicate StartsWithNoCase(s: string, word: string) {
    |s| >= |word| && Lower(s[..|word|]) == word
  }

  // ---------------------------------------------------------------------
  // strpos(s, pat) and substr(s, 0, 1)
  // ---------------------------------------------------------------------

  /** `pat` sits in `s` at index `i`. */
  predicate OccursAt(s: string, pat: string, i: nat) {
    i + |pat| <= |s| && s[i..i + |pat|] == pat
  }

  /** The first occurrence of `pat` at or after `from`, if any. */
  function StrPosFrom(s: string, pat: string, from: nat): (r: Option<nat>)
    requires from <= |s|
    ensures r.Some? ==> from <= r.value && OccursAt(s, pat, r.value)
    ensures r.Some? ==> forall j :: from <= j < r.value ==> !OccursAt(s, pat, j)
    ensures r.None? ==> forall j :: from <= j <= |s| ==> !OccursAt(s, pat, j)
    decreases |s| - from
  {
    if OccursAt(s, pat, from) then Some(from)
    else if from == |s| then None
    else StrPosFrom(s, pat, from + 1)
  }

  /**
   * `strpos(s, pat)`: the index of the first occurrence of `pat`, or None
   * where PHP returns false. An empty `pat` is found at 0 (PHP 8).
   */
  function StrPos(s: string, pat: string): (r: Option<nat>)
    ensures r.Some? ==> OccursAt(s, pat, r.value)
    ensures r.Some? ==> forall j :: 0 <= j < r.value ==> !OccursAt(s, pat, j)
    ensures r.None? <==> forall j :: 0 <= j <= |s| ==> !OccursAt(s, pat, j)
  {
    StrPosFrom(s, pat, 0)
  }

  /** `strpos(s, pat) !== false`: `pat` is a substring of `s`. */
  predicate Contains(s: string, pat: string) {
    StrPos(s, pat).Some?
  }

  /** Contains holds exactly when `pat` occurs somewhere in `s`. */
  lemma ContainsIff(s: string, pat: string)
    ensures Contains(s, pat) <==> exists i :: 0 <= i <= |s| && OccursAt(s, pat, i)
  {
  }

  /** A string contains every string obtained by wrapping it in more text. */
  lemma {:induction false} ContainsInside(pre: string, pat: string, post: string)
    ensures Contains(pre + pat + post, pat)
  {
    var s := pre + pat + post;
    assert s[|pre|..|pre| + |pat|] == pat;
    assert OccursAt(s, pat, |pre|);
  }

  /** `substr(s, 0, 1) == '.'`: the name of a hidden entry. */
  predicate StartsWithDot(s: string) {
    |s| > 0 && s[0] == '.'
  }
}
