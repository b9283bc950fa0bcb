/**
 * The string primitives the Python code leans on: `str.strip`, `str.lower`,
 * `in` on strings, `str.split('\n\n')`, `'\n\n'.join`, `str.replace(' ', '')`,
 * and the character classes behind the regular expressions (`\s`, `\d`, `\w`, `\b`).
 * Strings are sequences of Unicode scalar values, like Python's `str`.
 */
module Text {

  // ---------------------------------------------------------------------------
  // Character classes

  /** Python's `str.isspace`: the characters `strip()` removes and `\s` matches. */
  predicate IsSpace(c: char)
  {
    || c == ' '
    || ('\t' <= c <= '\r')
    || ('\U{1C}' <= c <= '\U{1F}')
    || c == '\U{85}' || c == '\U{A0}' || c == '\U{1680}'
    || ('\U{2000}' <= c <= '\U{200A}')
    || c == '\U{2028}' || c == '\U{2029}' || c == '\U{202F}' || c == '\U{205F}' || c == '\U{3000}'
  }

  /** `\d`, restricted to the ASCII digits. */
  predicate IsDigit(c: char)
  {
    '0' <= c <= '9'
  }

  predicate IsAsciiLetter(c: char)
  {
    ('a' <= c <= 'z') || ('A' <= c <= 'Z')
  }

  /** `\w`: letters, digits and underscore, for ASCII and the Latin-1 supplement. */
  predicate IsWordChar(c: char)
  {
    || IsDigit(c) || IsAsciiLetter(c) || c == '_'
    || c == '\U{AA}' || c == '\U{B2}' || c == '\U{B3}' || c == '\U{B5}' || c == '\U{B9}' || c == '\U{BA}'
    || ('\U{BC}' <= c <= '\U{BE}')
    || ('\U{C0}' <= c <= '\U{D6}') || ('\U{D8}' <= c <= '\U{F6}') || ('\U{F8}' <= c <= '\U{FF}')
  }

  /** `str.lower` on one character, for ASCII and Latin-1 capitals. */
  function Lower(c: char): (l: char)
    ensures IsWordChar(l) == IsWordChar(c)
    ensures IsDigit(l) == IsDigit(c)
  {
    if ('A' <= c <= 'Z') || ('\U{C0}' <= c <= '\U{DE}' && c != '\U{D7}') then (c as int + 32) as char else c
  }

  /** `str.lower`: character by character, so lengths and positions are kept. */
  function LowerStr(s: string): (r: string)
    ensures |r| == |s|
    ensures forall i :: 0 <= i < |s| ==> r[i] == Lower(s[i])
  {
    seq(|s|, i requires 0 <= i < |s| => Lower(s[i]))
  }

  /** Lowering a concatenation begins with the lowered first part. */
  lemma LowerPrefix(a: string, b: string)
    ensures LowerStr(a + b)[..|a|] == LowerStr(a)
  {
    assert forall i :: 0 <= i < |a| ==> (a + b)[i] == a[i];
  }

  // ---------------------------------------------------------------------------
  // strip

  ghost predicate AllSpace(s: string)
  {
    forall i :: 0 <= i < |s| ==> IsSpace(s[i])
  }

  /** `str.lstrip()`: drop leading whitespace. */
  function TrimLeft(s: string): string
  {
    if s != [] && IsSpace(s[0]) then TrimLeft(s[1..]) else s
  }

  /** `str.rstrip()`: drop trailing whitespace. */
  function TrimRight(s: string): string
  {
    if s != [] && IsSpace(s[|s| - 1]) then TrimRight(s[..|s| - 1]) else s
  }

  /** `str.strip()`. */
  function Strip(s: string): string
  {
    TrimRight(TrimLeft(s))
  }

  /** `lstrip` yields the longest suffix that does not start with whitespace. */
  lemma {:induction false} TrimLeftSpec(s: string)
    ensures var r := TrimLeft(s);
      && |r| <= |s| && r == s[|s| - |r|..]
      && (forall i :: 0 <= i < |s| - |r| ==> IsSpace(s[i]))
      && (r != [] ==> !IsSpace(r[0]))
  {
    if s != [] && IsSpace(s[0]) {
      TrimLeftSpec(s[1..]);
      assert forall i :: 1 <= i < |s| ==> s[i] == s[1..][i - 1];
    }
  }

  /** `rstrip` yields the longest prefix that does not end with whitespace. */
  lemma {:induction false} TrimRightSpec(s: string)
    ensures var r := TrimRight(s);
      && |r| <= |s| && r == s[..|r|]
      && (forall i :: |r| <= i < |s| ==> IsSpace(s[i]))
      && (r != [] ==> !IsSpace(r[|r| - 1]))
  {
    if s != [] && IsSpace(s[|s| - 1]) {
      TrimRightSpec(s[..|s| - 1]);
    }
  }

  /** `strip` is empty exactly when the string is all whitespace, and otherwise
      starts and ends with a character that is not whitespace. */
  lemma StripSpec(s: string)
    ensures |Strip(s)| <= |s|
    ensures Strip(s) == [] <==> AllSpace(s)
    ensures Strip(s) != [] ==> !IsSpace(Strip(s)[0]) && !IsSpace(Strip(s)[|Strip(s)| - 1])
  {
    var l := TrimLeft(s);
    TrimLeftSpec(s);
    TrimRightSpec(l);
    var r := TrimRight(l);
    if r != [] {
      assert r[0] == l[0];
    }
  }

  /** `lower` never turns whitespace into something else or back, and lowering
      twice is lowering once. */
  lemma LowerChar(c: char)
    ensures IsSpace(Lower(c)) == IsSpace(c)
    ensures Lower(Lower(c)) == Lower(c)
  {
  }

  /** `s.strip().lower()` is left unchanged by a second `strip().lower()`. */
  lemma StripLowerIdempotent(s: string)
    ensures LowerStr(Strip(LowerStr(Strip(s)))) == LowerStr(Strip(s))
  {
    var y := Strip(s);
    var z := LowerStr(y);
    StripSpec(s);
    if z != [] {
      LowerChar(y[0]);
      LowerChar(y[|y| - 1]);
    }
    assert Strip(z) == z by {
      assert TrimLeft(z) == z;
      assert TrimRight(z) == z;
    }
    forall i | 0 <= i < |z| ensures LowerStr(z)[i] == z[i] {
      LowerChar(y[i]);
    }
  }

  // ---------------------------------------------------------------------------
  // Substrings

  /** `pat` occurs in `s` starting at position `i`. */
  predicate OccursAt(s: string, i: int, pat: string)
  {
    0 <= i && i + |pat| <= |s| && s[i..i + |pat|] == pat
  }

  /** Python's `needle in hay` on strings. */
  predicate Contains(hay: string, needle: string)
  {
    exists i :: 0 <= i <= |hay| - |needle| && OccursAt(hay, i, needle)
  }

  /** The regular-expression anchor `\b` at position `k` of `s`. */
  predicate Boundary(s: string, k: int)
    requires 0 <= k <= |s|
  {
    (k > 0 && IsWordChar(s[k - 1])) != (k < |s| && IsWordChar(s[k]))
  }

  // ---------------------------------------------------------------------------
  // split / join

  const BlankLine: string := "\n\n"

  /** `'\n\n'.join(parts)`. */
  function Join(parts: seq<string>, sep: string): string
  {
    if |parts| == 0 then ""
    else if |parts| == 1 then parts[0]
    else parts[0] + sep + Join(parts[1..], sep)
  }

  /** `s.split('\n\n')`: cut at each occurrence of the separator, scanning left to right. */
  function SplitBlankLines(s: string): (parts: seq<string>)
    ensures |parts| >= 1
  {
    if |s| < 2 then [s]
    else if s[0] == '\n' && s[1] == '\n' then [""] + SplitBlankLines(s[2..])
    else
      var rest := SplitBlankLines(s[1..]);
      [[s[0]] + rest[0]] + rest[1..]
  }

  /** Joining the pieces of a split with the separator gives back the text. */
  lemma {:induction false} SplitJoin(s: string)
    ensures Join(SplitBlankLines(s), BlankLine) == s
  {
    if |s| < 2 {
    } else if s[0] == '\n' && s[1] == '\n' {
      SplitJoin(s[2..]);
      SplitJoinAtSeparator(s);
    } else {
      SplitJoin(s[1..]);
      SplitJoinAtChar(s);
    }
  }

  lemma SplitJoinAtSeparator(s: string)
    requires |s| >= 2 && s[0] == '\n' && s[1] == '\n'
    requires Join(SplitBlankLines(s[2..]), BlankLine) == s[2..]
    ensures Join(SplitBlankLines(s), BlankLine) == s
  {
    JoinCons("", SplitBlankLines(s[2..]), BlankLine);
    assert s == BlankLine + s[2..];
  }

  lemma SplitJoinAtChar(s: string)
    requires |s| >= 2 && !(s[0] == '\n' && s[1] == '\n')
    requires Join(SplitBlankLines(s[1..]), BlankLine) == s[1..]
    ensures Join(SplitBlankLines(s), BlankLine) == s
  {
    JoinHead(s[0], SplitBlankLines(s[1..]), BlankLine);
    assert s == [s[0]] + s[1..];
  }

  lemma JoinCons(first: string, rest: seq<string>, sep: string)
    requires rest != []
    ensures Join([first] + rest, sep) == first + sep + Join(rest, sep)
  {
    assert ([first] + rest)[1..] == rest;
  }

  /** Prefixing the first part prefixes the join. */
  lemma JoinHead(x: char, parts: seq<string>, sep: string)
    requires parts != []
    ensures Join([[x] + parts[0]] + parts[1..], sep) == [x] + Join(parts, sep)
  {
    var q := [[x] + parts[0]] + parts[1..];
    assert q[0] == [x] + parts[0] && q[1..] == parts[1..];
    if |parts| > 1 {
      assert Join(q, sep) == ([x] + parts[0]) + sep + Join(parts[1..], sep);
      assert Join(parts, sep) == parts[0] + sep + Join(parts[1..], sep);
    }
  }

  lemma AllSpaceConcat(a: string, b: string)
    ensures AllSpace(a + b) <==> AllSpace(a) && AllSpace(b)
  {
    if AllSpace(a + b) {
      forall i | 0 <= i < |b| ensures IsSpace(b[i]) { assert b[i] == (a + b)[|a| + i]; }
      forall i | 0 <= i < |a| ensures IsSpace(a[i]) { assert a[i] == (a + b)[i]; }
    }
  }

  /** Every one of the strings is all whitespace. */
  ghost predicate AllBlank(parts: seq<string>)
  {
    forall k :: 0 <= k < |parts| ==> AllSpace(parts[k])
  }

  /** With a whitespace separator, a join is all whitespace exactly when every part is. */
  lemma {:induction false} AllSpaceJoin(parts: seq<string>, sep: string)
    requires AllSpace(sep)
    ensures AllSpace(Join(parts, sep)) <==> AllBlank(parts)
  {
    if |parts| > 1 {
      AllSpaceJoin(parts[1..], sep);
      AllSpaceConcat(parts[0] + sep, Join(parts[1..], sep));
      AllSpaceConcat(parts[0], sep);
      assert forall k :: 1 <= k < |parts| ==> parts[k] == parts[1..][k - 1];
    }
  }

  /** A text is all whitespace exactly when every piece of its split is. */
  lemma AllSpaceSplit(s: string)
    ensures AllSpace(s) <==> AllBlank(SplitBlankLines(s))
  {
    SplitJoin(s);
    AllSpaceJoin(SplitBlankLines(s), BlankLine);
  }

  // ---------------------------------------------------------------------------
  // Other conversions

  /** `s.replace(c, '')`: every occurrence of `c` removed, all else kept in order. */
  function RemoveChar(s: string, c: char): (r: string)
    ensures |r| <= |s|
    ensures forall i :: 0 <= i < |r| ==> r[i] != c
    ensures (forall i :: 0 <= i < |s| ==> s[i] != c) ==> r == s
  {
    if s == [] then []
    else if s[0] == c then RemoveChar(s[1..], c)
    else [s[0]] + RemoveChar(s[1..], c)
  }

  /** Decimal rendering of a natural number, as in an f-string. */
  function NatToString(n: nat): (s: string)
    ensures |s| >= 1
    ensures forall i :: 0 <= i < |s| ==> IsDigit(s[i])
  {
    var d := ['0' + (n % 10) as char];
    if n < 10 then d else NatToString(n / 10) + d
  }
}
