/** The two string operations the validators rely on: snakeyaml's case-insensitive enum
    lookup (EnumUtils.findEnumInsensitiveCase) and Java's String.split on a one-character
    separator. */
module Strings {
  import opened Wrappers

  function ToLowerAscii(c: char): char {
    if 'A' <= c <= 'Z' then (c as int + 32) as char else c
  }

  /** String.compareToIgnoreCase(...) == 0, with case folding restricted to ASCII letters. */
  predicate EqualsIgnoreCase(a: string, b: string) {
    |a| == |b| && forall i :: 0 <= i < |a| ==> ToLowerAscii(a[i]) == ToLowerAscii(b[i])
  }

  /** The position of the first enum constant name matching `s` case-insensitively;
      None where findEnumInsensitiveCase throws IllegalArgumentException. */
  function FindIgnoreCase(names: seq<string>, s: string): (r: Option<nat>)
    ensures r.Some? ==> r.value < |names| && EqualsIgnoreCase(names[r.value], s)
    ensures r.Some? ==> forall j :: 0 <= j < r.value ==> !EqualsIgnoreCase(names[j], s)
    ensures r.None? <==> forall j :: 0 <= j < |names| ==> !EqualsIgnoreCase(names[j], s)
  {
    if |names| == 0 then None
    else if EqualsIgnoreCase(names[0], s) then Some(0)
    else match FindIgnoreCase(names[1..], s)
      case None => None
      case Some(k) => Some(k + 1)
  }

  /** Every piece between separators, empty pieces included: one more piece than
      there are separators. */
  function SplitAll(s: string, sep: char): (parts: seq<string>)
    ensures |parts| >= 1
  {
    if |s| == 0 then [""]
    else
      var rest := SplitAll(s[1..], sep);
      if s[0] == sep then [""] + rest else [[s[0]] + rest[0]] + rest[1..]
  }

  /** The pieces glued back together with the separator between consecutive pieces. */
  function Join(parts: seq<string>, sep: char): string
    requires |parts| >= 1
  {
    if |parts| == 1 then parts[0] else parts[0] + [sep] + Join(parts[1..], sep)
  }

  /** The pieces with all trailing empty strings removed. */
  function DropTrailingEmpty(parts: seq<string>): (r: seq<string>)
    ensures r <= parts
    ensures |r| == 0 || r[|r| - 1] != ""
    ensures forall i :: |r| <= i < |parts| ==> parts[i] == ""
  {
    if |parts| == 0 || parts[|parts| - 1] != "" then parts
    else DropTrailingEmpty(parts[..|parts| - 1])
  }

  /** Java's s.split(",") (a one-character regex, limit 0): a string without the
      separator is returned whole, even when empty; otherwise the pieces are cut at
      every separator and trailing empty pieces are dropped. */
  function JavaSplit(s: string, sep: char): seq<string>
  {
    if sep !in s then [s] else DropTrailingEmpty(SplitAll(s, sep))
  }

  /** Cutting at every separator and gluing back gives the original string. */
  lemma {:induction false} JoinSplitAll(s: string, sep: char)
    ensures Join(SplitAll(s, sep), sep) == s
  {
    if |s| > 0 {
      var rest := SplitAll(s[1..], sep);
      JoinSplitAll(s[1..], sep);
      if s[0] != sep {
        if |rest| > 1 {
          assert ([[s[0]] + rest[0]] + rest[1..])[1..] == rest[1..];
        }
      }
      assert s == [s[0]] + s[1..];
    }
  }

  /** No piece of a split contains the separator. */
  lemma {:induction false} SplitAllPiecesClean(s: string, sep: char)
    ensures forall i :: 0 <= i < |SplitAll(s, sep)| ==> sep !in SplitAll(s, sep)[i]
  {
    if |s| > 0 {
      SplitAllPiecesClean(s[1..], sep);
    }
  }

  lemma {:induction false} SplitAllNoSep(s: string, sep: char)
    requires sep !in s
    ensures SplitAll(s, sep) == [s]
  {
    if |s| > 0 {
      SplitAllNoSep(s[1..], sep);
      assert s == [s[0]] + s[1..];
    }
  }

  lemma {:induction false} SplitAllPrefix(p: string, rest: string, sep: char)
    requires sep !in p
    ensures SplitAll(p + [sep] + rest, sep) == [p] + SplitAll(rest, sep)
  {
    if |p| == 0 {
      assert p + [sep] + rest == [sep] + rest;
      assert ([sep] + rest)[1..] == rest;
    } else {
      SplitAllPrefix(p[1..], rest, sep);
      assert (p + [sep] + rest)[1..] == p[1..] + [sep] + rest;
      assert [p[0]] + p[1..] == p;
    }
  }

  /** Gluing separator-free pieces and cutting again gives the pieces back. */
  lemma {:induction false} SplitAllJoin(parts: seq<string>, sep: char)
    requires |parts| >= 1
    requires forall i :: 0 <= i < |parts| ==> sep !in parts[i]
    ensures SplitAll(Join(parts, sep), sep) == parts
  {
    if |parts| == 1 {
      SplitAllNoSep(parts[0], sep);
    } else {
      SplitAllJoin(parts[1..], sep);
      SplitAllPrefix(parts[0], Join(parts[1..], sep), sep);
      assert [parts[0]] + parts[1..] == parts;
    }
  }

  /** The round trip for Java's split: a list of separator-free names whose last name
      is not empty splits back into exactly that list once joined. */
  lemma JavaSplitJoin(parts: seq<string>, sep: char)
    requires |parts| >= 1 && parts[|parts| - 1] != ""
    requires forall i :: 0 <= i < |parts| ==> sep !in parts[i]
    ensures JavaSplit(Join(parts, sep), sep) == parts
  {
    SplitAllJoin(parts, sep);
    if |parts| > 1 {
      JoinHasSep(parts, sep);
    } else {
      assert Join(parts, sep) == parts[0];
    }
  }

  lemma JoinHasSep(parts: seq<string>, sep: char)
    requires |parts| >= 2
    ensures sep in Join(parts, sep)
  {
    var j := Join(parts, sep);
    assert j == parts[0] + [sep] + Join(parts[1..], sep);
    assert j[|parts[0]|] == sep;
  }

  /** What Java's split keeps: a prefix of all the pieces, dropping only empty ones, so
      the input is the kept pieces joined and followed by nothing but separators. */
  lemma JavaSplitKeepsPrefix(s: string, sep: char)
    requires sep in s
    ensures JavaSplit(s, sep) <= SplitAll(s, sep)
    ensures forall i :: |JavaSplit(s, sep)| <= i < |SplitAll(s, sep)| ==> SplitAll(s, sep)[i] == ""
    ensures Join(SplitAll(s, sep), sep) == s
  {
    JoinSplitAll(s, sep);
  }
}
