/** The string operations Color.js applies to its inputs: removing white space
    from a color and cutting a list of channels at its commas. */
module Text {

  /** The class `\s` of a JavaScript regular expression: the ECMAScript
      WhiteSpace and LineTerminator characters. */
  const SpaceChars: set<char> := {
    '\t', '\n', '\U{B}', '\U{C}', '\r', ' ', '\U{A0}', '\U{1680}',
    '\U{2000}', '\U{2001}', '\U{2002}', '\U{2003}', '\U{2004}', '\U{2005}',
    '\U{2006}', '\U{2007}', '\U{2008}', '\U{2009}', '\U{200A}',
    '\U{2028}', '\U{2029}', '\U{202F}', '\U{205F}', '\U{3000}', '\U{FEFF}'
  }

  predicate IsSpace(c: char)
  {
    c in SpaceChars
  }

  predicate NoSpace(s: string)
  {
    forall i :: 0 <= i < |s| ==> !IsSpace(s[i])
  }

  /** Every white-space character removed, the rest kept in order. */
  function StripSpaces(s: string): (r: string)
    ensures NoSpace(r) && |r| <= |s|
  {
    if s == [] then []
    else
      var rest := StripSpaces(s[1..]);
      if IsSpace(s[0]) then rest else [s[0]] + rest
  }

  /** Text without white space is left as it is. */
  lemma {:induction false} StripSpacesFixed(s: string)
    requires NoSpace(s)
    ensures StripSpaces(s) == s
    decreases |s|
  {
    if s != [] {
      StripSpacesFixed(s[1..]);
    }
  }

  /** Removing white space twice removes nothing more. */
  lemma StripSpacesIdempotent(s: string)
    ensures StripSpaces(StripSpaces(s)) == StripSpaces(s)
  {
    StripSpacesFixed(StripSpaces(s));
  }

  /** Removing white space distributes over concatenation. */
  lemma {:induction false} StripSpacesAppend(a: string, b: string)
    ensures StripSpaces(a + b) == StripSpaces(a) + StripSpaces(b)
    decreases |a|
  {
    if a == [] {
      assert a + b == b;
    } else {
      assert (a + b)[1..] == a[1..] + b;
      StripSpacesAppend(a[1..], b);
    }
  }

  /** A single character is dropped exactly when it is white space; with
      `StripSpacesAppend` this fixes `StripSpaces` on every string. */
  lemma StripSpacesOne(c: char)
    ensures StripSpaces([c]) == if IsSpace(c) then [] else [c]
  {
    assert [c][1..] == [];
  }

  /** Single spaces between three space-free pieces disappear. */
  lemma StripTwoSpaces(x: string, y: string, z: string)
    requires NoSpace(x) && NoSpace(y) && NoSpace(z)
    ensures StripSpaces(x + " " + y + " " + z) == x + y + z
  {
    StripSpacesAppend(x + " " + y + " ", z);
    StripSpacesAppend(x + " " + y, " ");
    StripSpacesAppend(x + " ", y);
    StripSpacesAppend(x, " ");
    StripSpacesFixed(x);
    StripSpacesFixed(y);
    StripSpacesFixed(z);
  }

  /** The fields of `s` between occurrences of `sep`, as `s.split(sep)` returns them;
      there is always at least one (the empty string has one empty field). */
  function Split(s: string, sep: char): (parts: seq<string>)
    ensures |parts| >= 1
    ensures forall i :: 0 <= i < |parts| ==> sep !in parts[i]
    ensures Join(parts, sep) == s
  {
    if s == [] then [[]]
    else
      var rest := Split(s[1..], sep);
      if s[0] == sep then
        assert ([[]] + rest)[1..] == rest;
        [[]] + rest
      else
        var parts := [[s[0]] + rest[0]] + rest[1..];
        assert |rest| > 1 ==> Join(rest, sep) == rest[0] + [sep] + Join(rest[1..], sep);
        assert parts[1..] == rest[1..];
        parts
  }

  /** The fields put back together with `sep` between them. */
  function Join(parts: seq<string>, sep: char): string
    requires |parts| >= 1
  {
    if |parts| == 1 then parts[0] else parts[0] + [sep] + Join(parts[1..], sep)
  }

  /** A field without the separator is not cut. */
  lemma {:induction false} SplitNoSep(a: string, sep: char)
    requires sep !in a
    ensures Split(a, sep) == [a]
    decreases |a|
  {
    if a != [] {
      SplitNoSep(a[1..], sep);
    }
  }

  /** Splitting finds the first field up to the first separator. */
  lemma {:induction false} SplitFirst(a: string, sep: char, rest: string)
    requires sep !in a
    ensures Split(a + [sep] + rest, sep) == [a] + Split(rest, sep)
    decreases |a|
  {
    var s := a + [sep] + rest;
    if a == [] {
      assert s[1..] == rest;
    } else {
      assert s[1..] == a[1..] + [sep] + rest;
      SplitFirst(a[1..], sep, rest);
      var tail := Split(s[1..], sep);
      assert tail[1..] == Split(rest, sep);
      assert [a[0]] + tail[0] == a;
    }
  }

  /** Splitting undoes joining fields that do not contain the separator. */
  lemma {:induction false} SplitJoin(parts: seq<string>, sep: char)
    requires |parts| >= 1
    requires forall i :: 0 <= i < |parts| ==> sep !in parts[i]
    ensures Split(Join(parts, sep), sep) == parts
    decreases |parts|
  {
    if |parts| == 1 {
      SplitNoSep(parts[0], sep);
    } else {
      SplitJoin(parts[1..], sep);
      SplitFirst(parts[0], sep, Join(parts[1..], sep));
    }
  }
}
