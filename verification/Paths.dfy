/** Paths as texts: what src/fs/pparser.c takes for a path, and the names in it. */
module Paths {
  import opened Words

  // The bytes of a string without its NUL.
  type Text = seq<byte>

  const SLASH: byte := 0x2f
  const COLON: byte := 0x3a
  const ZERO: byte := 0x30
  const MAX_PATH := 128

  predicate ValidPath(s: Text) {
    3 <= |s| <= MAX_PATH && ZERO <= s[0] < ZERO + 10 && s[1] == COLON && s[2] == SLASH
  }

  /** The length of the name that a text starts with. */
  function NameEnd(s: Text): (e: nat)
    ensures e <= |s| && (forall i | 0 <= i < e :: s[i] != 0x2f) && (e < |s| ==> s[e] == 0x2f)
  {
    if s == [] || s[0] == SLASH then 0 else 1 + NameEnd(s[1..])
  }

  /** What follows that name and its slash. */
  function After(s: Text): Text {
    if NameEnd(s) < |s| then s[NameEnd(s) + 1..] else []
  }

  /** The names that the parser finds: it stops at the first empty one. */
  function Names(s: Text): seq<Text>
    decreases |s|
  {
    if NameEnd(s) == 0 then [] else [s[..NameEnd(s)]] + Names(After(s))
  }

  /** What parsing gives: a drive and at least one name, or nothing. */
  datatype Parsed = NoPath | Path(drive: nat, names: seq<Text>)

  function Parse(s: Text): Parsed {
    if ValidPath(s) && Names(s[3..]) != [] then Path(s[0] - ZERO, Names(s[3..])) else NoPath
  }

  // Reference -------------------------------------------------------------------------------

  /** The parts of a text between its slashes. */
  function Split(s: Text): (parts: seq<Text>)
    ensures |parts| >= 1
    decreases |s|
  {
    var e := NameEnd(s);
    if e < |s| then [s[..e]] + Split(s[e + 1..]) else [s]
  }

  /** A list of names is the longest prefix of a list of parts without an empty one. */
  predicate LongestPrefix(names: seq<Text>, parts: seq<Text>) {
    names <= parts && [] !in names && (|names| < |parts| ==> parts[|names|] == [])
  }

  lemma LongerPrefix(name: Text, names: seq<Text>, parts: seq<Text>)
    requires LongestPrefix(names, parts) && name != []
    ensures LongestPrefix([name] + names, [name] + parts)
  {
    assert |names| < |parts| ==> ([name] + parts)[1 + |names|] == parts[|names|];
  }

  /** The names that the parser finds are the longest prefix of parts none of which is empty. */
  lemma {:induction false} NamesAreLongestPrefix(s: Text)
    ensures LongestPrefix(Names(s), Split(s))
    decreases |s|
  {
    var e := NameEnd(s);
    if 0 < e < |s| {
      NamesAreLongestPrefix(s[e + 1..]);
      LongerPrefix(s[..e], Names(s[e + 1..]), Split(s[e + 1..]));
    } else if e > 0 {
      assert s[..e] == s && Names(s) == [s] + Names([]);
    }
  }

  /**
    A path is not parsed exactly when it does not start with a digit, a colon and a slash, has more than 128 bytes, or
    when its first part is empty.
  */
  lemma NoPathIff(s: Text)
    ensures Parse(s).NoPath? <==>
            || |s| < 3 || |s| > 128 || !(0x30 <= s[0] <= 0x39) || s[1] != 0x3a || s[2] != 0x2f
            || Split(s[3..])[0] == []
  {
    if ValidPath(s) {
      NamesAreLongestPrefix(s[3..]);
    }
  }

  // Printing and parsing -----------------------------------------------------------------------

  function Join(names: seq<Text>): Text {
    if names == [] then [] else if |names| == 1 then names[0] else names[0] + [SLASH] + Join(names[1..])
  }

  function Print(drive: nat, names: seq<Text>): Text
    requires drive < 10
  {
    [ZERO + drive, COLON, SLASH] + Join(names)
  }

  predicate IsName(name: Text) {
    name != [] && SLASH !in name
  }

  lemma {:induction false} NameEndOf(name: Text, rest: Text)
    requires SLASH !in name && (rest == [] || rest[0] == SLASH)
    ensures NameEnd(name + rest) == |name|
  {
    if name != [] {
      assert (name + rest)[1..] == name[1..] + rest;
      NameEndOf(name[1..], rest);
    } else {
      assert name + rest == rest;
    }
  }

  lemma Append(a: Text, b: Text)
    ensures (a + b)[..|a|] == a && (a + b)[|a|..] == b
  {
  }

  lemma AppendTwice(a: Text, b: Text, c: Text)
    ensures a + b + c == a + (b + c)
  {
  }

  lemma TakeFirst(name: Text, rest: Text, s: Text)
    requires s == name + ([SLASH] + rest)
    ensures s[..|name|] == name && s[|name| + 1..] == rest
  {
    Append(name, [SLASH] + rest);
    assert s[|name| + 1..] == s[|name|..][1..];
  }

  lemma NamesStep(s: Text, name: Text, rest: Text)
    requires 0 < NameEnd(s) < |s| && s[..NameEnd(s)] == name && s[NameEnd(s) + 1..] == rest
    ensures Names(s) == [name] + Names(rest)
  {
  }

  lemma NamesOfFirst(name: Text, rest: Text)
    requires IsName(name)
    ensures Names(name + ([SLASH] + rest)) == [name] + Names(rest)
  {
    var s := name + ([SLASH] + rest);
    NameEndOf(name, [SLASH] + rest);
    TakeFirst(name, rest, s);
    NamesStep(s, name, rest);
  }

  lemma JoinFirst(names: seq<Text>)
    requires |names| > 1
    ensures Join(names) == names[0] + ([SLASH] + Join(names[1..]))
  {
    AppendTwice(names[0], [SLASH], Join(names[1..]));
  }

  lemma {:induction false} NamesOfJoin(names: seq<Text>)
    requires forall n | n in names :: IsName(n)
    ensures Names(Join(names)) == names
    decreases |names|
  {
    if |names| == 1 {
      assert names[0] in names && Join(names) == names[0] + [];
      NameEndOf(names[0], []);
      assert Names(Join(names)) == [names[0]] + Names([]);
    } else if |names| > 1 {
      assert names[0] in names;
      NamesOfJoin(names[1..]);
      NamesOfFirst(names[0], Join(names[1..]));
      JoinFirst(names);
      assert names == [names[0]] + names[1..];
    }
  }

  lemma JoinMore(name: Text, names: seq<Text>)
    requires names != []
    ensures Join([name] + names) == name + ([SLASH] + Join(names))
  {
    JoinFirst([name] + names);
    assert ([name] + names)[1..] == names;
  }

  lemma PrependPrefix(a: Text, b: Text, c: Text)
    requires b <= c
    ensures a + b <= a + c
  {
    Append(b, c[|b|..]);
    AppendTwice(a, b, c[|b|..]);
    assert a + c == a + b + c[|b|..];
  }

  lemma FirstName(s: Text, e: nat)
    requires e < |s| && s[e] == SLASH
    ensures s == s[..e] + ([SLASH] + s[e + 1..])
  {
    assert s[e..] == [SLASH] + s[e + 1..];
  }

  /** Parsing a printed path gives its drive and its names back. */
  lemma RoundTrip(drive: nat, names: seq<Text>)
    requires drive < 10 && names != [] && (forall n | n in names :: IsName(n))
    requires |Print(drive, names)| <= MAX_PATH
    ensures Parse(Print(drive, names)) == Path(drive, names)
  {
    NamesOfJoin(names);
    assert Print(drive, names)[3..] == Join(names);
    assert names[0] in names;
  }

  lemma JoinOfFirst(s: Text, name: Text, rest: Text, names: seq<Text>)
    requires name == s[..NameEnd(s)] && rest == After(s) && Join(names) <= rest && (rest == [] ==> names == [])
    ensures Join([name] + names) <= s
  {
    if names == [] {
      assert [name] + names == [name];
    } else {
      FirstName(s, NameEnd(s));
      JoinMore(name, names);
      PrependPrefix([SLASH], Join(names), rest);
      PrependPrefix(name, [SLASH] + Join(names), [SLASH] + rest);
    }
  }

  /** The path /bin/sh on drive 2, and a text that is too short for a path. */
  lemma ParsedExample()
    ensures Parse([0x32, 0x3a, 0x2f, 0x62, 0x69, 0x6e, 0x2f, 0x73, 0x68]) == Path(2, [[0x62, 0x69, 0x6e], [0x73, 0x68]])
    ensures Parse([0x32, 0x3a]) == NoPath
  {
    var bin, sh: Text := [0x62, 0x69, 0x6e], [0x73, 0x68];
    assert Join([sh]) == sh && [bin, sh][1..] == [sh];
    assert Join([bin, sh]) == [0x62, 0x69, 0x6e, 0x2f, 0x73, 0x68];
    assert Print(2, [bin, sh]) == [0x32, 0x3a, 0x2f, 0x62, 0x69, 0x6e, 0x2f, 0x73, 0x68];
    RoundTrip(2, [bin, sh]);
  }

  /** Printing what a path was parsed to leaves out no more than what follows the names. */
  lemma {:induction false} JoinOfNames(s: Text)
    ensures Join(Names(s)) <= s
    decreases |s|
  {
    if NameEnd(s) > 0 {
      JoinOfNames(After(s));
      JoinOfFirst(s, s[..NameEnd(s)], After(s), Names(After(s)));
    }
  }

  lemma PrintOfParse(s: Text)
    requires Parse(s).Path?
    ensures Print(Parse(s).drive, Parse(s).names) <= s
  {
    JoinOfNames(s[3..]);
    PrintPrefix(s, Names(s[3..]));
  }

  lemma PrintPrefix(s: Text, names: seq<Text>)
    requires ValidPath(s) && Join(names) <= s[3..]
    ensures Print(s[0] - ZERO, names) <= s
  {
    AppendPrefix(s, Join(names));
  }

  lemma AppendPrefix(s: Text, rest: Text)
    requires |s| >= 3 && rest <= s[3..]
    ensures [s[0], s[1], s[2]] + rest <= s
  {
    var front := [s[0], s[1], s[2]];
    forall i | 0 <= i < 3 + |rest|
      ensures (front + rest)[i] == s[i]
    {
      if i >= 3 {
        assert rest[i - 3] == s[3..][i - 3];
      }
    }
  }
}
