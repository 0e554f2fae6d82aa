/**
 * The string operations that the submission path and the game start lean on:
 * lower-casing, trimming whitespace and newlines from both ends, and
 * splitting a text into its lines.
 */
module Text {
  import opened Wrappers
  import opened Letters

  /** Lower-cases one character; only the ASCII capitals 'A' to 'Z' change. */
  function LowerChar(c: char): (r: char)
    ensures 'A' <= c <= 'Z' ==> 'a' <= r <= 'z' && r as int - c as int == 'a' as int - 'A' as int
    ensures !('A' <= c <= 'Z') ==> r == c
  {
    if 'A' <= c <= 'Z' then (c as int - 'A' as int + 'a' as int) as char else c
  }

  /** Every character of `s` is already lower case. */
  predicate IsLower(s: string)
  {
    forall i :: 0 <= i < |s| ==> LowerChar(s[i]) == s[i]
  }

  /** `s.lowercased()`, for the ASCII letters. */
  function Lower(s: string): string
  {
    if s == [] then [] else [LowerChar(s[0])] + Lower(s[1..])
  }

  /** Lower-casing works character by character and leaves a lower-case string. */
  lemma {:induction false} LowerSpec(s: string)
    ensures |Lower(s)| == |s|
    ensures forall i :: 0 <= i < |s| ==> Lower(s)[i] == LowerChar(s[i])
    ensures IsLower(Lower(s))
  {
    if s != [] {
      LowerSpec(s[1..]);
    }
  }

  /** A string that is already lower case is its own lower-cased form. */
  lemma LowerOfLowerIsIdentity(s: string)
    requires IsLower(s)
    ensures Lower(s) == s
  {
    LowerSpec(s);
  }

  /**
   * The characters of Foundation's `whitespacesAndNewlines` set: the Unicode
   * space, line and paragraph separators, the controls U+0009 to U+000D, and U+0085.
   */
  predicate IsWhitespace(c: char)
  {
    c == ' ' || '\t' <= c <= '\r' || c == '\U{85}' || c == '\U{A0}' || c == '\U{1680}'
    || '\U{2000}' <= c <= '\U{200A}' || c == '\U{2028}' || c == '\U{2029}'
    || c == '\U{202F}' || c == '\U{205F}' || c == '\U{3000}'
  }

  predicate AllWhitespace(s: string)
  {
    forall i :: 0 <= i < |s| ==> IsWhitespace(s[i])
  }

  /** `s` without its leading whitespace. */
  function TrimStart(s: string): string
  {
    if s != [] && IsWhitespace(s[0]) then TrimStart(s[1..]) else s
  }

  /** `s` without its trailing whitespace. */
  function TrimEnd(s: string): string
  {
    if s != [] && IsWhitespace(s[|s| - 1]) then TrimEnd(s[..|s| - 1]) else s
  }

  /** Trimming the front drops exactly the leading run of whitespace. */
  lemma {:induction false} TrimStartSpec(s: string)
    ensures var r := TrimStart(s);
            && |r| <= |s| && r == s[|s| - |r|..]
            && AllWhitespace(s[..|s| - |r|])
            && (r != [] ==> !IsWhitespace(r[0]))
  {
    if s != [] && IsWhitespace(s[0]) {
      TrimStartSpec(s[1..]);
      var r := TrimStart(s);
      assert s[..|s| - |r|] == [s[0]] + s[1..][..|s| - 1 - |r|];
    }
  }

  /** Trimming the back drops exactly the trailing run of whitespace. */
  lemma {:induction false} TrimEndSpec(s: string)
    ensures var r := TrimEnd(s);
            && |r| <= |s| && r == s[..|r|]
            && AllWhitespace(s[|r|..])
            && (r != [] ==> !IsWhitespace(r[|r| - 1]))
  {
    if s != [] && IsWhitespace(s[|s| - 1]) {
      var t := s[..|s| - 1];
      TrimEndSpec(t);
      var r := TrimEnd(s);
      assert s[|r|..] == t[|r|..] + [s[|s| - 1]];
    }
  }

  /** A string with no whitespace at its ends is left alone by both trims. */
  lemma TrimFixesTrimmed(s: string)
    requires s != [] ==> !IsWhitespace(s[0]) && !IsWhitespace(s[|s| - 1])
    ensures TrimStart(s) == s && TrimEnd(s) == s
  {
  }

  /** `s.trimmingCharacters(in: .whitespacesAndNewlines)`. */
  function Trim(s: string): string
  {
    TrimEnd(TrimStart(s))
  }

  /**
   * Trimming keeps a contiguous run of `s` whose first and last characters are
   * not whitespace; everything cut off on either side is whitespace, and the
   * result is empty exactly when `s` is all whitespace.
   */
  lemma TrimSpec(s: string)
    ensures var k := |s| - |TrimStart(s)|;
            var r := Trim(s);
            && 0 <= k && k + |r| <= |s| && r == s[k..k + |r|]
            && AllWhitespace(s[..k]) && AllWhitespace(s[k + |r|..])
            && (r != [] ==> !IsWhitespace(r[0]) && !IsWhitespace(r[|r| - 1]))
            && (r == [] <==> AllWhitespace(s))
  {
    var t := TrimStart(s);
    TrimStartSpec(s);
    TrimEndSpec(t);
    var k := |s| - |t|;
    var r := TrimEnd(t);
    assert t == s[k..];
    assert r == t[..|r|] == s[k..k + |r|];
    assert s[k + |r|..] == t[|r|..];
    if r != [] {
      assert r[0] == t[0];
    }
    if r == [] {
      assert s == s[..k] + t;
    }
  }

  lemma TrimIdempotent(s: string)
    ensures Trim(Trim(s)) == Trim(s)
  {
    TrimSpec(s);
    TrimFixesTrimmed(Trim(s));
  }

  lemma TrimKeepsLower(s: string)
    requires IsLower(s)
    ensures IsLower(Trim(s))
  {
    TrimSpec(s);
    var k := |s| - |TrimStart(s)|;
    var r := Trim(s);
    forall i | 0 <= i < |r| ensures LowerChar(r[i]) == r[i] {
      assert r[i] == s[k + i];
    }
  }

  /** The normalised answer of a submission: lower-cased, then trimmed. */
  function Normalise(s: string): string
  {
    Trim(Lower(s))
  }

  /** Lower case, with no whitespace at either end: what `Normalise` leaves. */
  predicate IsNormalised(s: string)
  {
    IsLower(s) && (s != [] ==> !IsWhitespace(s[0]) && !IsWhitespace(s[|s| - 1]))
  }

  /** Normalising yields a normalised string, and exactly the normalised strings are left as they are. */
  lemma NormaliseShape(s: string)
    ensures IsNormalised(Normalise(s))
    ensures IsNormalised(s) <==> Normalise(s) == s
  {
    LowerSpec(s);
    TrimKeepsLower(Lower(s));
    TrimSpec(Lower(s));
    if IsNormalised(s) {
      LowerOfLowerIsIdentity(s);
      TrimFixesTrimmed(s);
    }
  }

  /** Normalising an already normalised answer changes nothing. */
  lemma NormaliseIdempotent(s: string)
    ensures Normalise(Normalise(s)) == Normalise(s)
  {
    NormaliseShape(s);
    NormaliseShape(Normalise(s));
  }

  /** The worked example of a submission typed with a capital and surrounding spaces. */
  lemma NormaliseExample()
    ensures Normalise("  Listen ") == "listen"
  {
    var lowered := "  listen ";
    assert Lower("  Listen ") == lowered by {
      assert LowerChar('L') == 'l';
    }
    TrimExample();
  }

  lemma TrimExample()
    ensures Trim("  listen ") == "listen"
  {
    var lowered, once, twice := "  listen ", " listen ", "listen ";
    assert IsWhitespace(' ') && !IsWhitespace('l') && !IsWhitespace('n');
    assert lowered[1..] == once && once[1..] == twice;
    assert TrimStart(twice) == twice;
    assert TrimStart(lowered) == twice;
    assert twice[..|twice| - 1] == "listen";
    assert TrimEnd(twice) == "listen";
  }

  /** `s.components(separatedBy: [sep])`: the pieces of `s` between occurrences of `sep`. */
  function Split(s: string, sep: char): (r: seq<string>)
    ensures |r| >= 1
    ensures forall i :: 0 <= i < |r| ==> sep !in r[i]
    decreases |s|
  {
    match FirstIndex(s, sep)
    case None => [s]
    case Some(i) => [s[..i]] + Split(s[i + 1..], sep)
  }

  /** The pieces put back together with `sep` between them. */
  function Join(parts: seq<string>, sep: char): string
    requires |parts| >= 1
  {
    if |parts| == 1 then parts[0] else parts[0] + [sep] + Join(parts[1..], sep)
  }

  lemma {:induction false} JoinSplit(s: string, sep: char)
    ensures Join(Split(s, sep), sep) == s
    decreases |s|
  {
    match FirstIndex(s, sep)
    case None =>
    case Some(i) =>
      var rest := Split(s[i + 1..], sep);
      assert Split(s, sep) == [s[..i]] + rest;
      assert ([s[..i]] + rest)[1..] == rest;
      JoinSplit(s[i + 1..], sep);
      assert s == s[..i] + [sep] + s[i + 1..];
  }

  lemma {:induction false} SplitJoin(parts: seq<string>, sep: char)
    requires |parts| >= 1
    requires forall i :: 0 <= i < |parts| ==> sep !in parts[i]
    ensures Split(Join(parts, sep), sep) == parts
  {
    if |parts| > 1 {
      var s := Join(parts, sep);
      var p, rest := parts[0], Join(parts[1..], sep);
      assert s == p + [sep] + rest;
      assert s[..|p|] == p && s[|p|] == sep && s[|p| + 1..] == rest;
      FirstIndexAt(s, sep, |p|);
      SplitJoin(parts[1..], sep);
      assert Split(s, sep) == [p] + Split(rest, sep);
      assert parts == [p] + parts[1..];
    }
  }

  /** A line with a newline after it splits into that line and an empty last line. */
  lemma SplitTrailingNewline(line: string)
    requires '\n' !in line
    ensures Split(line + "\n", '\n') == [line, ""]
  {
    assert Join([line, ""], '\n') == line + "\n";
    SplitJoin([line, ""], '\n');
  }
}
