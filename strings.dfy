/**
 * The PHP string built-ins the analyzer relies on, over byte strings:
 * every `char` of a `string` stands for one byte, so `strlen($s)` is `|s|`.
 *
 *   str_replace($pat, $rep, $s)   Replace(s, pat, rep)
 *   strpos($s, $w) !== false      Occurs(w, s)
 *   strtolower($s)                ToLower(s)
 *   explode(' ', $s)              Split(s)
 *   implode(' ', $ts)             Join(ts)
 *   trim($s)                      Trim(s)
 */
module PhpStrings {

  /** Number of occurrences of the character `c` in `s`. */
  function CountChar(s: string, c: char): nat
  {
    if s == [] then 0 else (if s[0] == c then 1 else 0) + CountChar(s[1..], c)
  }

  // ---------------------------------------------------------------------------
  // strpos / str_replace
  // ---------------------------------------------------------------------------

  /** `strpos($s, $w) !== false`: `w` occurs somewhere in `s` as a raw substring.
      The empty needle is found at offset 0 (as in PHP 8). */
  predicate Occurs(w: string, s: string)
    ensures Occurs(w, s) <==> exists i :: 0 <= i <= |s| && w <= s[i..]
    decreases |s|
  {
    if w <= s then
      assert w <= s[0..];
      true
    else if s == [] then
      false
    else
      assert forall i :: 1 <= i <= |s| ==> s[i..] == s[1..][i - 1..];
      Occurs(w, s[1..])
  }

  /** `str_replace($pat, $rep, $s)` for one non-empty pattern: scans `s` left to
      right and replaces every non-overlapping occurrence of `pat` by `rep`;
      the scan resumes after the replaced occurrence. */
  function Replace(s: string, pat: string, rep: string): (r: string)
    requires |pat| > 0
    ensures Count(s, pat) == 0 ==> r == s
    ensures |rep| <= |pat| ==> |r| <= |s|
    ensures |rep| + 1 == |pat| ==> |r| == |s| - Count(s, pat)
    decreases |s|
  {
    if |s| < |pat| then s
    else if pat <= s then rep + Replace(s[|pat|..], pat, rep)
    else
      assert [s[0]] + s[1..] == s;
      [s[0]] + Replace(s[1..], pat, rep)
  }

  /** The number of replacements `Replace(s, pat, _)` performs: none exactly
      when the pattern does not occur. */
  function Count(s: string, pat: string): (n: nat)
    requires |pat| > 0
    ensures n == 0 <==> !Occurs(pat, s)
    decreases |s|
  {
    if |s| < |pat| then
      assert forall i :: 0 <= i <= |s| ==> |s[i..]| < |pat|;
      0
    else if pat <= s then 1 + Count(s[|pat|..], pat)
    else
      assert !(pat <= s[0..]);
      Count(s[1..], pat)
  }

  /** A string that contains `w + [c]` contains `w`. */
  lemma {:induction false} OccursExtended(w: string, c: char, s: string)
    requires Occurs(w + [c], s)
    ensures Occurs(w, s)
    decreases |s|
  {
    if w + [c] <= s {
      assert w <= s by {
        forall i | 0 <= i < |w| ensures w[i] == s[i] {
          assert (w + [c])[i] == w[i];
        }
      }
    } else {
      OccursExtended(w, c, s[1..]);
    }
  }

  /** A word whose first character is missing from `s` does not occur in it. */
  lemma {:induction false} FirstCharMissing(w: string, s: string)
    requires w != [] && w[0] !in s
    ensures !Occurs(w, s)
    decreases |s|
  {
    if s != [] {
      assert s[0] in s;
      FirstCharMissing(w, s[1..]);
    }
  }

  /** If the pattern occurs nowhere, `str_replace` leaves the string as it is. */
  lemma {:induction false} ReplaceAbsent(s: string, pat: string, rep: string)
    requires |pat| > 0
    requires !Occurs(pat, s)
    ensures Replace(s, pat, rep) == s
    ensures Count(s, pat) == 0
    decreases |s|
  {
    if |s| >= |pat| {
      ReplaceAbsent(s[1..], pat, rep);
      assert [s[0]] + s[1..] == s;
    }
  }

  /** `pat` occurs in `s` starting at position `i`. */
  predicate MatchAt(s: string, pat: string, i: nat)
    requires i <= |s|
  {
    pat <= s[i..]
  }

  /** One step of the scan at a match: the occurrence becomes `rep`. */
  lemma ReplaceAtMatch(s: string, pat: string, rep: string)
    requires |pat| > 0 && pat <= s
    ensures Replace(s, pat, rep) == rep + Replace(s[|pat|..], pat, rep)
  {
  }

  /** One step of the scan at a non-matching first character. */
  lemma ReplaceSkip(s: string, pat: string, rep: string)
    requires |pat| > 0 && |pat| <= |s| && !(pat <= s)
    ensures Replace(s, pat, rep) == [s[0]] + Replace(s[1..], pat, rep)
  {
  }

  /** A prefix `a` in which no match of `pat` starts is copied unchanged,
      and the scan resumes at `b`. */
  lemma {:induction false} ReplaceKeepsPrefix(a: string, b: string, pat: string, rep: string)
    requires |pat| > 0 && |pat| <= |b|
    requires forall i :: 0 <= i < |a| ==> !MatchAt(a + b, pat, i)
    ensures Replace(a + b, pat, rep) == a + Replace(b, pat, rep)
    decreases |a|
  {
    if a == [] {
      assert a + b == b;
    } else {
      var a' := a[1..];
      assert (a + b)[1..] == a' + b;
      assert !MatchAt(a + b, pat, 0) && (a + b)[0..] == a + b;
      forall i | 0 <= i < |a'| ensures !MatchAt(a' + b, pat, i) {
        assert !MatchAt(a + b, pat, i + 1);
        assert (a + b)[i + 1..] == (a' + b)[i..];
      }
      ReplaceKeepsPrefix(a', b, pat, rep);
      ReplaceSkip(a + b, pat, rep);
      assert [a[0]] + a' == a;
      AppendAssoc([a[0]], a', Replace(b, pat, rep));
    }
  }

  lemma AppendAssoc(x: string, y: string, z: string)
    ensures x + (y + z) == (x + y) + z
  {
  }

  /** Where `str_replace` puts its replacements: everything before the first
      occurrence of `pat` is kept, that occurrence becomes `rep`, and the scan
      resumes right after it. With `ReplaceAbsent` this fixes the result on
      every input. */
  lemma ReplaceFirst(s: string, pat: string, rep: string, p: nat)
    requires |pat| > 0 && p + |pat| <= |s| && MatchAt(s, pat, p)
    requires forall i :: 0 <= i < p ==> !MatchAt(s, pat, i)
    ensures Replace(s, pat, rep) == s[..p] + rep + Replace(s[p + |pat|..], pat, rep)
  {
    var a := s[..p];
    var b := s[p..];
    assert s == a + b;
    ReplaceKeepsPrefix(a, b, pat, rep);
    ReplaceAtMatch(b, pat, rep);
    assert b[|pat|..] == s[p + |pat|..];
    AppendAssoc(a, rep, Replace(s[p + |pat|..], pat, rep));
  }

  // ---------------------------------------------------------------------------
  // Deleting characters
  // ---------------------------------------------------------------------------

  /** `r` is `s` with some occurrences of `c` deleted and every other character
      kept, in order. */
  predicate DeletesOnly(r: string, s: string, c: char)
    decreases |s|
  {
    if s == [] then r == []
    else
      || (r != [] && r[0] == s[0] && DeletesOnly(r[1..], s[1..], c))
      || (s[0] == c && DeletesOnly(r, s[1..], c))
  }

  /** Deleting characters never makes a string longer; the characters other
      than `c` are the same in number. */
  lemma {:induction false} DeletesOnlyLength(r: string, s: string, c: char)
    requires DeletesOnly(r, s, c)
    ensures |r| <= |s|
    ensures |s| - |r| == CountChar(s, c) - CountChar(r, c)
    decreases |s|
  {
    if s != [] {
      if r != [] && r[0] == s[0] && DeletesOnly(r[1..], s[1..], c) {
        DeletesOnlyLength(r[1..], s[1..], c);
      } else {
        DeletesOnlyLength(r, s[1..], c);
      }
    }
  }

  lemma {:induction false} DeletesOnlyRefl(s: string, c: char)
    ensures DeletesOnly(s, s, c)
    decreases |s|
  {
    if s != [] { DeletesOnlyRefl(s[1..], c); }
  }

  /** A common prefix can be put in front of both sides. */
  lemma {:induction false} DeletesOnlyPrefix(p: string, r: string, s: string, c: char)
    requires DeletesOnly(r, s, c)
    ensures DeletesOnly(p + r, p + s, c)
    decreases |p|
  {
    if p == [] {
      assert p + r == r && p + s == s;
    } else {
      DeletesOnlyPrefix(p[1..], r, s, c);
      assert (p + r)[1..] == p[1..] + r;
      assert (p + s)[1..] == p[1..] + s;
      assert (p + r)[0] == p[0] == (p + s)[0];
      assert DeletesOnly((p + r)[1..], (p + s)[1..], c);
      assert p + s != [];
    }
  }

  /** Two rounds of deletions are one round of deletions. */
  lemma {:induction false} DeletesOnlyTrans(a: string, b: string, s: string, c: char)
    requires DeletesOnly(a, b, c) && DeletesOnly(b, s, c)
    ensures DeletesOnly(a, s, c)
    decreases |s|
  {
    if s == [] {
    } else if b != [] && b[0] == s[0] && DeletesOnly(b[1..], s[1..], c) {
      if a != [] && a[0] == b[0] && DeletesOnly(a[1..], b[1..], c) {
        DeletesOnlyTrans(a[1..], b[1..], s[1..], c);
      } else {
        assert b[0] == c && DeletesOnly(a, b[1..], c);
        DeletesOnlyTrans(a, b[1..], s[1..], c);
      }
    } else {
      assert s[0] == c && DeletesOnly(b, s[1..], c);
      DeletesOnlyTrans(a, b, s[1..], c);
    }
  }

  /** Replacing `w + [c]` by `w` deletes only `c`s and keeps every other
      character in order (one `c` per replacement, by the length clause of
      `Replace`). */
  lemma {:induction false} ReplaceDropsLast(s: string, w: string, c: char)
    ensures DeletesOnly(Replace(s, w + [c], w), s, c)
    decreases |s|
  {
    var pat := w + [c];
    if |s| < |pat| {
      DeletesOnlyRefl(s, c);
    } else if pat <= s {
      var rest := s[|pat|..];
      ReplaceDropsLast(rest, w, c);
      var rr := Replace(rest, pat, w);
      assert DeletesOnly(rr, [c] + rest, c) by {
        assert ([c] + rest)[1..] == rest;
      }
      DeletesOnlyPrefix(w, rr, [c] + rest, c);
      assert s == w + ([c] + rest) by {
        assert s[..|pat|] == pat;
        assert s == s[..|pat|] + rest;
      }
    } else {
      ReplaceDropsLast(s[1..], w, c);
      var rr := Replace(s[1..], pat, w);
      DeletesOnlyPrefix([s[0]], rr, s[1..], c);
      assert [s[0]] + s[1..] == s;
    }
  }

  // ---------------------------------------------------------------------------
  // strtolower
  // ---------------------------------------------------------------------------

  predicate IsAsciiUpper(c: char)
  {
    'A' <= c <= 'Z'
  }

  /** `strtolower` on one byte: only 'A'..'Z' change, each to its lower-case letter. */
  function LowerChar(c: char): (r: char)
    ensures !IsAsciiUpper(r)
    ensures r == ' ' <==> c == ' '
    ensures IsAsciiUpper(c) ==> r as int == c as int - 'A' as int + 'a' as int
    ensures !IsAsciiUpper(c) ==> r == c
  {
    if IsAsciiUpper(c) then (c as int - 'A' as int + 'a' as int) as char else c
  }

  /** `strtolower`: byte by byte, ASCII only. */
  function ToLower(s: string): (r: string)
    ensures |r| == |s|
    ensures forall i :: 0 <= i < |s| ==> r[i] == LowerChar(s[i])
    ensures CountChar(r, ' ') == CountChar(s, ' ')
  {
    if s == [] then [] else [LowerChar(s[0])] + ToLower(s[1..])
  }

  /** A string without ASCII capitals is its own lower case. */
  lemma ToLowerNoUpper(s: string)
    requires forall i :: 0 <= i < |s| ==> !IsAsciiUpper(s[i])
    ensures ToLower(s) == s
  {
  }

  /** Lower-casing twice is lower-casing once. */
  lemma ToLowerIdempotent(s: string)
    ensures ToLower(ToLower(s)) == ToLower(s)
  {
  }

  // ---------------------------------------------------------------------------
  // explode / implode on a single space
  // ---------------------------------------------------------------------------

  /** `implode(' ', $ts)`. */
  function Join(ts: seq<string>): string
  {
    if ts == [] then [] else if |ts| == 1 then ts[0] else ts[0] + " " + Join(ts[1..])
  }

  /** `explode(' ', $s)`: the pieces between single spaces, in order. Two
      adjacent spaces, or a space at either end, give an empty piece; the empty
      string gives one empty piece. */
  function Split(s: string): (r: seq<string>)
    ensures |r| == CountChar(s, ' ') + 1
    ensures forall i :: 0 <= i < |r| ==> ' ' !in r[i]
    ensures Join(r) == s
  {
    if s == [] then [[]]
    else
      var rest := Split(s[1..]);
      if s[0] == ' ' then
        assert Join([[]] + rest) == " " + Join(rest);
        [[]] + rest
      else
        var r := [[s[0]] + rest[0]] + rest[1..];
        assert Join(r) == [s[0]] + Join(rest) by {
          if |rest| > 1 {
            assert r[1..] == rest[1..];
          }
        }
        r
  }

  /** Every character of every piece comes from the split string. */
  lemma {:induction false} SplitPiecesFromSource(s: string, i: nat, k: nat)
    requires i < |Split(s)| && k < |Split(s)[i]|
    ensures Split(s)[i][k] in s
    decreases |s|
  {
    var rest := Split(s[1..]);
    if s[0] == ' ' {
      SplitPiecesFromSource(s[1..], i - 1, k);
    } else if i == 0 && k == 0 {
    } else if i == 0 {
      SplitPiecesFromSource(s[1..], 0, k - 1);
    } else {
      SplitPiecesFromSource(s[1..], i, k);
    }
  }

  /** Splitting after a space-free prefix attaches the prefix to the first piece. */
  lemma {:induction false} SplitAfterPrefix(a: string, b: string)
    requires ' ' !in a
    ensures Split(a + b) == [a + Split(b)[0]] + Split(b)[1..]
    decreases |a|
  {
    if a == [] {
      assert a + b == b;
      assert a + Split(b)[0] == Split(b)[0];
      assert [Split(b)[0]] + Split(b)[1..] == Split(b);
    } else {
      SplitAfterPrefix(a[1..], b);
      var s := a + b;
      assert s[1..] == a[1..] + b;
      assert s[0] == a[0] != ' ' by { assert a[0] in a; }
      var rest := Split(s[1..]);
      assert Split(s) == [[s[0]] + rest[0]] + rest[1..];
      assert [a[0]] + (a[1..] + Split(b)[0]) == a + Split(b)[0];
    }
  }

  /** A string without spaces is a single piece. */
  lemma SplitNoSpace(s: string)
    requires ' ' !in s
    ensures Split(s) == [s]
  {
    SplitAfterPrefix(s, []);
    assert s + [] == s;
  }

  /** `explode` undoes `implode` on pieces that contain no space. */
  lemma {:induction false} SplitJoin(ts: seq<string>)
    requires |ts| >= 1
    requires forall i :: 0 <= i < |ts| ==> ' ' !in ts[i]
    ensures Split(Join(ts)) == ts
    decreases |ts|
  {
    if |ts| == 1 {
      SplitAfterPrefix(ts[0], []);
      assert ts[0] + [] == ts[0];
    } else {
      SplitJoin(ts[1..]);
      var tail := " " + Join(ts[1..]);
      SplitAfterPrefix(ts[0], tail);
      assert tail[1..] == Join(ts[1..]);
      assert Split(tail) == [[]] + ts[1..];
      assert ts[0] + [] == ts[0];
      assert Join(ts) == ts[0] + tail;
      assert [ts[0]] + ts[1..] == ts;
    }
  }

  // ---------------------------------------------------------------------------
  // trim
  // ---------------------------------------------------------------------------

  /** The bytes `trim` strips by default: space, tab, line feed, carriage
      return, NUL and vertical tab. */
  predicate IsTrimChar(c: char)
  {
    c == ' ' || c == '\t' || c == '\n' || c == '\r' || c as int == 0 || c as int == 11
  }

  /** The first position at or after `i` that does not hold a trim byte
      (`|s|` if there is none). */
  function SkipTrimForward(s: string, i: nat): (n: nat)
    requires i <= |s|
    ensures i <= n <= |s|
    ensures forall k :: i <= k < n ==> IsTrimChar(s[k])
    ensures n == |s| || !IsTrimChar(s[n])
    decreases |s| - i
  {
    if i < |s| && IsTrimChar(s[i]) then SkipTrimForward(s, i + 1) else i
  }

  /** The end of the prefix `s[..j]` once its trailing trim bytes are dropped. */
  function SkipTrimBackward(s: string, j: nat): (n: nat)
    requires j <= |s|
    ensures n <= j
    ensures forall k :: n <= k < j ==> IsTrimChar(s[k])
    ensures n == 0 || !IsTrimChar(s[n - 1])
  {
    if j > 0 && IsTrimChar(s[j - 1]) then SkipTrimBackward(s, j - 1) else j
  }

  /** `ltrim`: drops the leading run of trim bytes. */
  function TrimLeft(s: string): (r: string)
    ensures |r| <= |s|
    ensures forall k :: 0 <= k < |r| ==> r[k] == s[|s| - |r| + k]
    ensures forall k :: 0 <= k < |s| - |r| ==> IsTrimChar(s[k])
    ensures r == [] || !IsTrimChar(r[0])
  {
    s[SkipTrimForward(s, 0)..]
  }

  /** `rtrim`: drops the trailing run of trim bytes. */
  function TrimRight(s: string): (r: string)
    ensures |r| <= |s|
    ensures forall k :: 0 <= k < |r| ==> r[k] == s[k]
    ensures forall k :: |r| <= k < |s| ==> IsTrimChar(s[k])
    ensures r == [] || !IsTrimChar(r[|r| - 1])
  {
    s[..SkipTrimBackward(s, |s|)]
  }

  /** `trim`: the middle part of `s` that neither starts nor ends with a trim
      byte, everything cut off on either side being trim bytes. */
  function Trim(s: string): (r: string)
    ensures r == [] || (!IsTrimChar(r[0]) && !IsTrimChar(r[|r| - 1]))
  {
    TrimRight(TrimLeft(s))
  }

  /** `trim` returns a slice of its argument, and everything it cut off on
      either side is a trim byte. */
  lemma TrimSlice(s: string)
    ensures exists a, b :: && 0 <= a <= b <= |s| && Trim(s) == s[a..b]
                           && (forall k :: 0 <= k < a ==> IsTrimChar(s[k]))
                           && (forall k :: b <= k < |s| ==> IsTrimChar(s[k]))
  {
    var l := TrimLeft(s);
    var r := TrimRight(l);
    var a := |s| - |l|;
    var b := a + |r|;
    assert r == s[a..b] by {
      forall k | 0 <= k < |r| ensures r[k] == s[a..b][k] {
        assert r[k] == l[k];
      }
    }
    forall k | b <= k < |s| ensures IsTrimChar(s[k]) {
      assert s[k] == l[k - a];
    }
  }

  /** A string with no trim byte at either end is its own trim. */
  lemma TrimNothing(s: string)
    requires s == [] || (!IsTrimChar(s[0]) && !IsTrimChar(s[|s| - 1]))
    ensures Trim(s) == s
  {
  }

  /** Trimming twice is trimming once. */
  lemma TrimIdempotent(s: string)
    ensures Trim(Trim(s)) == Trim(s)
  {
    TrimNothing(Trim(s));
  }
}
