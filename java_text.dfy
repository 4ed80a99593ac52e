/**
 * The parts of `java.lang.String` that the document service relies on, stated on
 * `seq<char>`: `split("\\s+")`, `split(",")`, `trim()`, `lastIndexOf(char)` and
 * `toLowerCase()` restricted to the letters that matter for file extensions.
 */
module JavaText {

  /** Membership in the regex class `\s` (without UNICODE_CHARACTER_CLASS):
      space, tab, newline, vertical tab, form feed and carriage return. */
  predicate IsRegexSpace(c: char) {
    c == ' ' || c == '\t' || c == '\n' || c == '\U{0B}' || c == '\U{0C}' || c == '\r'
  }

  /** No character of `s` is in `\s`. */
  predicate NoRegexSpace(s: string) {
    forall i :: 0 <= i < |s| ==> !IsRegexSpace(s[i])
  }

  /** Every character of `s` is in `\s`. */
  predicate AllRegexSpace(s: string) {
    forall i :: 0 <= i < |s| ==> IsRegexSpace(s[i])
  }

  // ---------------------------------------------------------------------------
  // split("\\s+")
  // ---------------------------------------------------------------------------

  /** Length of the longest prefix of `s` free of `\s`. */
  function WordLength(s: string): (k: nat)
    ensures k <= |s|
    ensures NoRegexSpace(s[..k])
    ensures k < |s| ==> IsRegexSpace(s[k])
  {
    if s == [] || IsRegexSpace(s[0]) then 0
    else
      var k := WordLength(s[1..]);
      assert s[..k + 1] == [s[0]] + s[1..][..k];
      k + 1
  }

  /** The maximal runs of non-`\s` characters of `s`, in order. */
  function Tokens(s: string): (ts: seq<string>)
    ensures forall j :: 0 <= j < |ts| ==> ts[j] != [] && NoRegexSpace(ts[j])
    decreases |s|
  {
    if s == [] then []
    else if IsRegexSpace(s[0]) then Tokens(s[1..])
    else
      var k := WordLength(s);
      [s[..k]] + Tokens(s[k..])
  }

  /**
   * `s.split("\\s+")`. The pattern never matches the empty string, so: without any
   * match the result is `[s]` (in particular `""` gives `[""]`); a match at index 0
   * leaves a leading empty string; trailing empty strings are removed, so
   * whitespace-only text gives no words at all.
   */
  function SplitOnWhitespace(s: string): (ws: seq<string>)
    ensures forall j :: 0 <= j < |ws| ==> NoRegexSpace(ws[j])
    ensures forall j :: 0 < j < |ws| ==> ws[j] != []
  {
    if s == [] then [""]
    else
      var ts := Tokens(s);
      (if IsRegexSpace(s[0]) && ts != [] then [""] else []) + ts
  }

  /** The non-`\s` characters of `s`, in order: an independent account of what the split keeps. */
  function NonSpaceChars(s: string): string {
    if s == [] then []
    else (if IsRegexSpace(s[0]) then [] else [s[0]]) + NonSpaceChars(s[1..])
  }

  /** Concatenation of a sequence of strings. */
  function Concat(ws: seq<string>): string {
    if ws == [] then [] else ws[0] + Concat(ws[1..])
  }

  lemma ConcatAppend(a: seq<string>, b: seq<string>)
    ensures Concat(a + b) == Concat(a) + Concat(b)
  {
    if a == [] {
      assert a + b == b;
    } else {
      assert (a + b)[0] == a[0] && (a + b)[1..] == a[1..] + b;
      ConcatAppend(a[1..], b);
    }
  }

  lemma {:induction false} NonSpaceCharsAppend(a: string, b: string)
    ensures NonSpaceChars(a + b) == NonSpaceChars(a) + NonSpaceChars(b)
  {
    if a == [] {
      assert a + b == b;
    } else {
      assert (a + b)[0] == a[0] && (a + b)[1..] == a[1..] + b;
      NonSpaceCharsAppend(a[1..], b);
    }
  }

  lemma {:induction false} NonSpaceCharsOfWord(w: string)
    requires NoRegexSpace(w)
    ensures NonSpaceChars(w) == w
  {
    if w != [] {
      NonSpaceCharsOfWord(w[1..]);
    }
  }

  lemma {:induction false} NonSpaceCharsOfSpaces(s: string)
    requires AllRegexSpace(s)
    ensures NonSpaceChars(s) == []
  {
    if s != [] {
      NonSpaceCharsOfSpaces(s[1..]);
    }
  }

  /** Tokenising loses no non-space character and invents none. */
  lemma {:induction false} TokensKeepNonSpace(s: string)
    ensures Concat(Tokens(s)) == NonSpaceChars(s)
    decreases |s|
  {
    if s == [] {
    } else if IsRegexSpace(s[0]) {
      TokensKeepNonSpace(s[1..]);
    } else {
      var k := WordLength(s);
      TokensKeepNonSpace(s[k..]);
      assert s == s[..k] + s[k..];
      NonSpaceCharsAppend(s[..k], s[k..]);
      NonSpaceCharsOfWord(s[..k]);
    }
  }

  lemma {:induction false} TokensEmptyIff(s: string)
    ensures Tokens(s) == [] <==> AllRegexSpace(s)
    decreases |s|
  {
    if s != [] {
      if IsRegexSpace(s[0]) {
        TokensEmptyIff(s[1..]);
        if AllRegexSpace(s[1..]) {
          forall i | 0 <= i < |s| ensures IsRegexSpace(s[i]) {
            if i > 0 { assert s[i] == s[1..][i - 1]; }
          }
        }
      }
    }
  }

  /** A word runs on to the first whitespace: text after a word that already stopped, or
      after a whitespace character, does not change where it stops. */
  lemma {:induction false} WordLengthExtend(a: string, rest: string)
    requires WordLength(a) < |a| || (rest != [] && IsRegexSpace(rest[0]))
    ensures WordLength(a + rest) == WordLength(a)
    decreases |a|
  {
    if a == [] {
      assert (a + rest)[0] == rest[0];
    } else if !IsRegexSpace(a[0]) {
      assert (a + rest)[0] == a[0] && (a + rest)[1..] == a[1..] + rest;
      WordLengthExtend(a[1..], rest);
    }
  }

  lemma {:induction false} WordLengthOfWord(w: string)
    requires NoRegexSpace(w)
    ensures WordLength(w) == |w|
    decreases |w|
  {
    if w != [] {
      assert NoRegexSpace(w[1..]) by {
        forall i | 0 <= i < |w| - 1 ensures !IsRegexSpace(w[1..][i]) {
          assert w[1..][i] == w[i + 1];
        }
      }
      WordLengthOfWord(w[1..]);
    }
  }

  /** Tokens are maximal runs: text without whitespace is a single token ... */
  lemma TokensOfWord(w: string)
    requires w != [] && NoRegexSpace(w)
    ensures Tokens(w) == [w]
  {
    WordLengthOfWord(w);
    assert w[|w|..] == [];
    assert w[..|w|] == w;
  }

  /** ... and a whitespace character always separates the tokens on its two sides. */
  lemma {:induction false} TokensAtSpace(a: string, c: char, b: string)
    requires IsRegexSpace(c)
    ensures Tokens(a + [c] + b) == Tokens(a) + Tokens(b)
    decreases |a|
  {
    var s := a + [c] + b;
    if a == [] {
      assert s[0] == c && s[1..] == b;
    } else if IsRegexSpace(a[0]) {
      assert s[0] == a[0] && s[1..] == a[1..] + [c] + b;
      TokensAtSpace(a[1..], c, b);
    } else {
      assert s == a + ([c] + b);
      WordLengthExtend(a, [c] + b);
      var k := WordLength(a);
      assert s[0] == a[0];
      assert k >= 1;
      assert s[..k] == a[..k];
      assert s[k..] == a[k..] + [c] + b;
      TokensAtSpace(a[k..], c, b);
    }
  }

  /** Concatenating the words of `s.split("\\s+")` gives exactly the non-space characters of `s`. */
  lemma SplitKeepsNonSpace(s: string)
    ensures Concat(SplitOnWhitespace(s)) == NonSpaceChars(s)
  {
    if s != [] {
      var ts := Tokens(s);
      var lead: seq<string> := if IsRegexSpace(s[0]) && ts != [] then [""] else [];
      ConcatAppend(lead, ts);
      TokensKeepNonSpace(s);
    }
  }

  /** `s.split("\\s+")` is empty exactly for non-empty, whitespace-only text. */
  lemma SplitEmptyIff(s: string)
    ensures SplitOnWhitespace(s) == [] <==> s != [] && AllRegexSpace(s)
  {
    if s != [] {
      TokensEmptyIff(s);
    }
  }

  /** The first word of `s.split("\\s+")` is empty exactly when `s` is empty, or starts with
      whitespace and is not whitespace only. */
  lemma SplitLeadingEmpty(s: string)
    ensures SplitOnWhitespace(s) != [] && SplitOnWhitespace(s)[0] == [] <==>
              s == [] || (IsRegexSpace(s[0]) && !AllRegexSpace(s))
  {
    if s != [] {
      TokensEmptyIff(s);
    }
  }

  // ---------------------------------------------------------------------------
  // split(",")
  // ---------------------------------------------------------------------------

  /** All pieces of `s` between occurrences of `sep`, empty ones included. */
  function Pieces(s: string, sep: char): (ps: seq<string>)
    ensures |ps| >= 1
    ensures forall j :: 0 <= j < |ps| ==> sep !in ps[j]
  {
    if s == [] then [""]
    else
      var rest := Pieces(s[1..], sep);
      if s[0] == sep then [""] + rest else [[s[0]] + rest[0]] + rest[1..]
  }

  /** `ps` without its trailing empty strings. */
  function DropTrailingEmpty(ps: seq<string>): (r: seq<string>)
    ensures |r| <= |ps| && r == ps[..|r|]
    ensures r == [] || r[|r| - 1] != []
    ensures forall j :: |r| <= j < |ps| ==> ps[j] == []
  {
    if ps != [] && ps[|ps| - 1] == [] then DropTrailingEmpty(ps[..|ps| - 1]) else ps
  }

  /** `s.split(String.valueOf(sep))` for a separator that is not a regex metacharacter. */
  function SplitOnChar(s: string, sep: char): (r: seq<string>)
    ensures forall j :: 0 <= j < |r| ==> sep !in r[j]
    ensures s != [] ==> r == [] || r[|r| - 1] != []
  {
    if sep !in s then [s] else DropTrailingEmpty(Pieces(s, sep))
  }

  /** The strings of `ps` with `sep` between neighbours (Java's `String.join`). */
  function JoinWith(ps: seq<string>, sep: char): string
  {
    if ps == [] then []
    else if |ps| == 1 then ps[0]
    else ps[0] + [sep] + JoinWith(ps[1..], sep)
  }

  /** Splitting into pieces and joining them back with the separator is the identity. */
  lemma {:induction false} PiecesJoin(s: string, sep: char)
    ensures JoinWith(Pieces(s, sep), sep) == s
  {
    if s != [] {
      var rest := Pieces(s[1..], sep);
      PiecesJoin(s[1..], sep);
      if s[0] != sep {
        var ps := Pieces(s, sep);
        if |rest| == 1 {
        } else {
          assert ps[1..] == rest[1..];
          assert JoinWith(rest, sep) == rest[0] + [sep] + JoinWith(rest[1..], sep);
        }
      }
    }
  }

  /** The last piece is empty exactly when `s` ends with the separator (or is empty). */
  lemma {:induction false} PiecesLast(s: string, sep: char)
    ensures Pieces(s, sep)[|Pieces(s, sep)| - 1] == [] <==> s == [] || s[|s| - 1] == sep
  {
    if s != [] {
      PiecesLast(s[1..], sep);
    }
  }

  /** Every piece of an all-separator string is empty. */
  lemma {:induction false} PiecesOfSeparators(s: string, sep: char)
    requires forall i :: 0 <= i < |s| ==> s[i] == sep
    ensures forall j :: 0 <= j < |Pieces(s, sep)| ==> Pieces(s, sep)[j] == []
  {
    if s != [] {
      PiecesOfSeparators(s[1..], sep);
    }
  }

  /** A string with a non-separator character has a non-empty piece. */
  lemma {:induction false} PiecesHaveContent(s: string, sep: char, i: nat)
    requires i < |s| && s[i] != sep
    ensures exists j :: 0 <= j < |Pieces(s, sep)| && Pieces(s, sep)[j] != []
  {
    var rest := Pieces(s[1..], sep);
    if i == 0 {
      assert Pieces(s, sep)[0] != [];
    } else {
      PiecesHaveContent(s[1..], sep, i - 1);
      var j :| 0 <= j < |rest| && rest[j] != [];
      if s[0] == sep {
        assert Pieces(s, sep)[j + 1] == rest[j];
      } else if j == 0 {
        assert Pieces(s, sep)[0] != [];
      } else {
        assert Pieces(s, sep)[j] == rest[j];
      }
    }
  }

  /** `s` without its trailing `c` characters. */
  function StripTrailing(s: string, c: char): (r: string)
    ensures |r| <= |s| && r == s[..|r|]
    ensures r == [] || r[|r| - 1] != c
    ensures forall i :: |r| <= i < |s| ==> s[i] == c
  {
    if s != [] && s[|s| - 1] == c then StripTrailing(s[..|s| - 1], c) else s
  }

  /** A separator at the end adds one empty piece. */
  lemma {:induction false} PiecesSnocSep(t: string, sep: char)
    ensures Pieces(t + [sep], sep) == Pieces(t, sep) + [""]
    decreases |t|
  {
    var s := t + [sep];
    if t == [] {
      assert s[1..] == [];
    } else {
      assert s[0] == t[0] && s[1..] == t[1..] + [sep];
      PiecesSnocSep(t[1..], sep);
    }
  }

  /** Trailing separators only add empty pieces, which `split` drops. */
  lemma {:induction false} DropTrailingPieces(s: string, sep: char)
    ensures DropTrailingEmpty(Pieces(s, sep)) == DropTrailingEmpty(Pieces(StripTrailing(s, sep), sep))
    decreases |s|
  {
    if s != [] && s[|s| - 1] == sep {
      var t := s[..|s| - 1];
      assert s == t + [sep];
      PiecesSnocSep(t, sep);
      var ps := Pieces(t, sep);
      assert (ps + [""])[..|ps|] == ps;
      DropTrailingPieces(t, sep);
    }
  }

  /**
   * `s.split(sep)` joined back with `sep` is `s` without its trailing separators. Together
   * with `SplitOnChar`'s own contract (no piece holds `sep`, none trails empty) this fixes
   * the result: the pieces of `s` in order, untrimmed.
   */
  lemma SplitOnCharJoin(s: string, sep: char)
    ensures JoinWith(SplitOnChar(s, sep), sep) == StripTrailing(s, sep)
  {
    if sep in s {
      var t := StripTrailing(s, sep);
      DropTrailingPieces(s, sep);
      assert SplitOnChar(s, sep) == DropTrailingEmpty(Pieces(t, sep));
      if t == [] {
        assert Pieces(t, sep) == [""];
        assert DropTrailingEmpty([""]) == [];
      } else {
        var ps := Pieces(t, sep);
        PiecesLast(t, sep);
        assert ps[|ps| - 1] != [];
        assert DropTrailingEmpty(ps) == ps;
        PiecesJoin(t, sep);
      }
    } else if s != [] {
      assert s[|s| - 1] != sep;
    }
  }

  // ---------------------------------------------------------------------------
  // trim(), lastIndexOf(char), toLowerCase()
  // ---------------------------------------------------------------------------

  /** `s` with its leading characters at or below U+0020 removed. */
  function TrimStart(s: string): (r: string)
    ensures |r| <= |s| && r == s[|s| - |r|..]
    ensures r == [] || r[0] > ' '
    ensures forall i :: 0 <= i < |s| - |r| ==> s[i] <= ' '
  {
    if s != [] && s[0] <= ' ' then TrimStart(s[1..]) else s
  }

  /** `s` with its trailing characters at or below U+0020 removed. */
  function TrimEnd(s: string): (r: string)
    ensures |r| <= |s| && r == s[..|r|]
    ensures r == [] || r[|r| - 1] > ' '
    ensures forall i :: |r| <= i < |s| ==> s[i] <= ' '
  {
    if s != [] && s[|s| - 1] <= ' ' then TrimEnd(s[..|s| - 1]) else s
  }

  /** `s.trim()`: strips leading and trailing characters whose code is at most U+0020. */
  function Trim(s: string): (r: string)
    ensures |r| <= |s|
    ensures r == [] || (r[0] > ' ' && r[|r| - 1] > ' ')
  {
    TrimEnd(TrimStart(s))
  }

  /** `s` stripped of low characters down to the slice `s[i..i + |r|]` on both sides. */
  ghost predicate IsTrimSlice(s: string, i: int, r: string) {
    && 0 <= i && i + |r| <= |s| && r == s[i..i + |r|]
    && (forall k :: 0 <= k < i ==> s[k] <= ' ')
    && (forall k :: i + |r| <= k < |s| ==> s[k] <= ' ')
  }

  /** A prefix `r` of a suffix `t` of `s`, each cut off at low characters only, is a trimmed slice of `s`. */
  lemma PrefixOfSuffix(s: string, t: string, r: string)
    requires |t| <= |s| && t == s[|s| - |t|..]
    requires forall k :: 0 <= k < |s| - |t| ==> s[k] <= ' '
    requires |r| <= |t| && r == t[..|r|]
    requires forall k :: |r| <= k < |t| ==> t[k] <= ' '
    ensures IsTrimSlice(s, |s| - |t|, r)
  {
    var i := |s| - |t|;
    forall k | i + |r| <= k < |s|
      ensures s[k] <= ' '
    {
      assert s[k] == t[k - i];
    }
  }

  /** `trim()` keeps a middle slice of `s` and removes only characters at or below U+0020 on both sides. */
  lemma TrimSlice(s: string)
    ensures IsTrimSlice(s, |s| - |TrimStart(s)|, Trim(s))
  {
    var t := TrimStart(s);
    var r := TrimEnd(t);
    assert Trim(s) == r;
    PrefixOfSuffix(s, t, r);
  }

  /** `s.lastIndexOf(c)`: the index of the last `c` in `s`, or -1 when there is none. */
  function LastIndexOf(s: string, c: char): (r: int)
    ensures -1 <= r < |s|
    ensures r >= 0 ==> s[r] == c
    ensures forall j :: r < j < |s| ==> s[j] != c
  {
    if s == [] then -1
    else if s[|s| - 1] == c then |s| - 1
    else LastIndexOf(s[..|s| - 1], c)
  }

  /** Lower-case of one character for the ASCII letters; every other character is kept. */
  function LowerChar(c: char): char {
    if 'A' <= c <= 'Z' then (c as int + 32) as char else c
  }

  /**
   * `s.toLowerCase()`, on the ASCII letters. No character outside `A`..`Z` lower-cases to
   * an ASCII letter other than `k` and `i`, so comparing the result with "pdf" or "txt"
   * is decided exactly by this restriction.
   */
  function ToLower(s: string): (r: string)
    ensures |r| == |s|
    ensures forall i :: 0 <= i < |r| ==> !('A' <= r[i] <= 'Z')
    ensures EqualsIgnoreCase(s, r)
  {
    seq(|s|, i requires 0 <= i < |s| => LowerChar(s[i]))
  }

  /** `a.equalsIgnoreCase(b)` for ASCII letters: an independent reference for `ToLower(a) == b`. */
  predicate EqualsIgnoreCase(a: string, b: string) {
    |a| == |b| && forall i :: 0 <= i < |a| ==> LowerChar(a[i]) == LowerChar(b[i])
  }

  /** A string without upper-case ASCII letters is its own lower-case. */
  lemma ToLowerOfLower(b: string)
    requires forall i :: 0 <= i < |b| ==> !('A' <= b[i] <= 'Z')
    ensures ToLower(b) == b
  {
  }

  /** Comparing the lower-cased text with a lower-case literal is case-insensitive equality. */
  lemma ToLowerEqualsIff(a: string, b: string)
    requires ToLower(b) == b
    ensures ToLower(a) == b <==> EqualsIgnoreCase(a, b)
  {
    if EqualsIgnoreCase(a, b) {
      assert forall i :: 0 <= i < |a| ==> ToLower(a)[i] == LowerChar(b[i]) == ToLower(b)[i];
    }
    if ToLower(a) == b {
      forall i | 0 <= i < |a| ensures LowerChar(a[i]) == LowerChar(b[i]) {
        assert ToLower(b)[i] == b[i];
        assert LowerChar(b[i]) == b[i] by {
          assert b[i] == LowerChar(a[i]);
        }
      }
    }
  }

  // ---------------------------------------------------------------------------
  // length()
  // ---------------------------------------------------------------------------

  /** `s.length()`: UTF-16 code units, two for each character above U+FFFF (a surrogate pair). */
  function Utf16Length(s: string): (n: nat)
    ensures |s| <= n <= 2 * |s|
    ensures |s| == 1 ==> n == if s[0] > '\U{FFFF}' then 2 else 1
  {
    if s == [] then 0 else (if s[0] > '\U{FFFF}' then 2 else 1) + Utf16Length(s[1..])
  }

  /** `length()` is additive over concatenation; with the one-character values this fixes it. */
  lemma {:induction false} Utf16LengthAppend(a: string, b: string)
    ensures Utf16Length(a + b) == Utf16Length(a) + Utf16Length(b)
    decreases |a|
  {
    if a == [] {
      assert a + b == b;
    } else {
      assert (a + b)[0] == a[0] && (a + b)[1..] == a[1..] + b;
      Utf16LengthAppend(a[1..], b);
    }
  }

  /** `length()` counts characters exactly when no character lies outside the Basic Multilingual Plane. */
  lemma {:induction false} Utf16LengthIsLength(s: string)
    ensures Utf16Length(s) == |s| <==> forall i :: 0 <= i < |s| ==> s[i] <= '\U{FFFF}'
  {
    if s != [] {
      Utf16LengthIsLength(s[1..]);
      if forall i :: 0 <= i < |s| - 1 ==> s[1..][i] <= '\U{FFFF}' {
        assert forall i :: 1 <= i < |s| ==> s[i] == s[1..][i - 1];
      } else {
        var i :| 0 <= i < |s| - 1 && s[1..][i] > '\U{FFFF}';
        assert s[i + 1] > '\U{FFFF}';
      }
    }
  }
}
