/**
 * The few Python string operations the converter relies on: `str.isspace`,
 * `str.strip()`, single-character `str.replace`, `str.join` and `str.lower()`.
 */
module Text {

  /** Python's `str.isspace` for one character: the ASCII whitespace and
      separator controls plus the Unicode space separators. */
  predicate IsSpace(c: char) {
    c == ' ' || ('\t' <= c <= '\r') || ('\U{1C}' <= c <= '\U{1F}')
    || c == '\U{85}' || c == '\U{A0}' || c == '\U{1680}'
    || ('\U{2000}' <= c <= '\U{200A}') || c == '\U{2028}' || c == '\U{2029}'
    || c == '\U{202F}' || c == '\U{205F}' || c == '\U{3000}'
  }

  /** Drops leading whitespace: the result is a suffix of `s`, it does not
      start with whitespace, and everything dropped was whitespace. */
  function TrimStart(s: string): (r: string)
    ensures |r| <= |s| && r == s[|s| - |r|..]
    ensures r == [] || !IsSpace(r[0])
    ensures forall i :: 0 <= i < |s| - |r| ==> IsSpace(s[i])
  {
    if s != [] && IsSpace(s[0]) then TrimStart(s[1..]) else s
  }

  /** Drops trailing whitespace: the result is a prefix of `s`, it does not
      end with whitespace, and everything dropped was whitespace. */
  function TrimEnd(s: string): (r: string)
    ensures |r| <= |s| && r == s[..|r|]
    ensures r == [] || !IsSpace(r[|r| - 1])
    ensures forall i :: |r| <= i < |s| ==> IsSpace(s[i])
  {
    if s != [] && IsSpace(s[|s| - 1]) then TrimEnd(s[..|s| - 1]) else s
  }

  /** Python's `str.strip()` with no argument. */
  function Strip(s: string): (r: string)
    ensures |r| <= |s|
    ensures r == [] || (!IsSpace(r[0]) && !IsSpace(r[|r| - 1]))
  {
    TrimEnd(TrimStart(s))
  }

  /** Corollary of `StripOffset`, with the offset left unnamed: what
      `strip()` keeps is a slice of `s`, and everything before and after that
      slice is whitespace. With the ends of the slice not being whitespace
      (the ensures of `Strip`), this determines the result. */
  lemma StripSlice(s: string)
    ensures var r := Strip(s);
      exists a :: (0 <= a <= |s| - |r| && r == s[a..][..|r|]
        && (forall i :: 0 <= i < a ==> IsSpace(s[i]))
        && (forall i :: a + |r| <= i < |s| ==> IsSpace(s[i])))
  {
    var a := StripOffset(s);
    var r := Strip(s);
    assert 0 <= a <= |s| - |r| && r == s[a..][..|r|];
  }

  /** The offset of the slice `strip()` keeps: the number of leading
      whitespace characters. */
  lemma StripOffset(s: string) returns (a: nat)
    ensures var r := Strip(s);
      a <= |s| - |r| && r == s[a..][..|r|]
      && (forall i :: 0 <= i < a ==> IsSpace(s[i]))
      && (forall i :: a + |r| <= i < |s| ==> IsSpace(s[i]))
  {
    var t := TrimStart(s);
    var r := TrimEnd(t);
    a := |s| - |t|;
    assert t == s[a..];
    forall i | a + |r| <= i < |s|
      ensures IsSpace(s[i])
    {
      assert s[i] == t[i - a];
      assert |r| <= i - a < |t|;
    }
  }

  /** A string with no whitespace at either end is left alone by `Strip`. */
  lemma StripUnpadded(s: string)
    requires s == [] || (!IsSpace(s[0]) && !IsSpace(s[|s| - 1]))
    ensures Strip(s) == s
  {
    assert TrimStart(s) == s;
  }

  /** Python's `s.replace(a, b)` for one-character `a` and `b`. */
  function ReplaceChar(s: string, a: char, b: char): (r: string)
    ensures |r| == |s|
    ensures forall i :: 0 <= i < |s| ==> r[i] == if s[i] == a then b else s[i]
  {
    if s == [] then [] else [if s[0] == a then b else s[0]] + ReplaceChar(s[1..], a, b)
  }

  /** Replacing a character that does not occur changes nothing. */
  lemma ReplaceCharAbsent(s: string, a: char, b: char)
    requires a !in s
    ensures ReplaceChar(s, a, b) == s
  {
    var r := ReplaceChar(s, a, b);
    assert forall i :: 0 <= i < |s| ==> r[i] == s[i];
  }

  /** What one character becomes under `.replace(' ', '_').replace('-', '_')`. */
  function UnderscoreChar(c: char): char {
    if c == ' ' || c == '-' then '_' else c
  }

  /** `s.replace(' ', '_').replace('-', '_')`: same length, no space and no
      hyphen left, every other character kept in place. */
  function Underscored(s: string): (r: string)
    ensures |r| == |s|
    ensures forall i :: 0 <= i < |r| ==> r[i] != ' ' && r[i] != '-'
    ensures forall i :: 0 <= i < |r| ==> r[i] == UnderscoreChar(s[i])
  {
    ReplaceChar(ReplaceChar(s, ' ', '_'), '-', '_')
  }

  /** A string with no space and no hyphen is left alone by `Underscored`. */
  lemma UnderscoredPlain(s: string)
    requires forall i :: 0 <= i < |s| ==> s[i] != ' ' && s[i] != '-'
    ensures Underscored(s) == s
  {
    var r := Underscored(s);
    forall i | 0 <= i < |s| ensures r[i] == s[i] {
      assert r[i] == UnderscoreChar(s[i]);
    }
  }

  /** Extending a prefix by one element. */
  lemma PrefixSnoc<T>(s: seq<T>, j: nat)
    requires j < |s|
    ensures s[..j + 1] == s[..j] + [s[j]]
  {
  }

  /** Python's `sep.join(items)`. */
  function Join(items: seq<string>, sep: string): string {
    if |items| == 0 then ""
    else if |items| == 1 then items[0]
    else items[0] + sep + Join(items[1..], sep)
  }

  /** Joining an item in front of a non-empty list: the item, the separator,
      then the join of the list (with whatever follows it). */
  lemma JoinCons(x: string, rest: seq<string>, sep: string, tail: string)
    requires rest != []
    ensures Join([x] + rest, sep) + tail == x + (sep + (Join(rest, sep) + tail))
  {
    var items := [x] + rest;
    assert items[0] == x && items[1..] == rest;
  }

  predicate IsAsciiUpper(c: char) {
    'A' <= c <= 'Z'
  }

  /** `str.lower()` restricted to ASCII letters: A-Z become a-z, every other
      character is kept. */
  function LowerAscii(s: string): (r: string)
    ensures |r| == |s|
    ensures forall i :: 0 <= i < |s| ==> !IsAsciiUpper(r[i])
    ensures forall i :: 0 <= i < |s| && !IsAsciiUpper(s[i]) ==> r[i] == s[i]
    ensures forall i :: 0 <= i < |s| && IsAsciiUpper(s[i]) ==> r[i] as int == s[i] as int + 32
  {
    if s == [] then []
    else [if IsAsciiUpper(s[0]) then (s[0] as int + 32) as char else s[0]] + LowerAscii(s[1..])
  }
}
