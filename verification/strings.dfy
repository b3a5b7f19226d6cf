/** Splitting text on a separator character, as Rust's `str::split(char)`
    does, with joining as its inverse. */
module Strings {

  /** `s.split(sep).collect()`: the maximal separator-free pieces, including
      empty pieces between adjacent separators and at either end. */
  function Split(s: string, sep: char): (parts: seq<string>)
    ensures |parts| >= 1
    ensures forall i :: 0 <= i < |parts| ==> sep !in parts[i]
    decreases |s|
  {
    if |s| == 0 then [""]
    else
      var rest := Split(s[1..], sep);
      if s[0] == sep then [""] + rest
      else [[s[0]] + rest[0]] + rest[1..]
  }

  /** The pieces glued back together with the separator between them. */
  function JoinWith(parts: seq<string>, sep: char): string
    requires |parts| >= 1
  {
    if |parts| == 1 then parts[0] else parts[0] + [sep] + JoinWith(parts[1..], sep)
  }

  /** Joining the pieces restores the original text. */
  lemma {:induction false} JoinSplit(s: string, sep: char)
    ensures JoinWith(Split(s, sep), sep) == s
    decreases |s|
  {
    if |s| > 0 {
      var rest := Split(s[1..], sep);
      JoinSplit(s[1..], sep);
      if s[0] != sep && |rest| > 1 {
        assert JoinWith(rest, sep) == rest[0] + [sep] + JoinWith(rest[1..], sep);
        assert Split(s, sep)[1..] == rest[1..];
      }
    }
  }

  /** Text without the separator is a single piece. */
  lemma {:induction false} SplitWhole(a: string, sep: char)
    requires sep !in a
    ensures Split(a, sep) == [a]
    decreases |a|
  {
    if |a| > 0 {
      assert sep !in a[1..] by {
        forall i | 0 <= i < |a[1..]| ensures a[1..][i] != sep { assert a[1..][i] == a[i + 1]; }
      }
      SplitWhole(a[1..], sep);
      assert [a[0]] + a[1..] == a;
    }
  }

  /** A separator-free prefix followed by the separator becomes the first piece. */
  lemma {:induction false} SplitCons(a: string, b: string, sep: char)
    requires sep !in a
    ensures Split(a + [sep] + b, sep) == [a] + Split(b, sep)
    decreases |a|
  {
    var s := a + [sep] + b;
    if |a| == 0 {
      assert s[1..] == b;
    } else {
      assert s[1..] == a[1..] + [sep] + b;
      assert sep !in a[1..] by {
        forall i | 0 <= i < |a[1..]| ensures a[1..][i] != sep { assert a[1..][i] == a[i + 1]; }
      }
      SplitCons(a[1..], b, sep);
      assert [a[0]] + a[1..] == a;
    }
  }

  /** Splitting a join of separator-free pieces gives the pieces back. */
  lemma {:induction false} SplitJoin(parts: seq<string>, sep: char)
    requires |parts| >= 1
    requires forall i :: 0 <= i < |parts| ==> sep !in parts[i]
    ensures Split(JoinWith(parts, sep), sep) == parts
    decreases |parts|
  {
    if |parts| == 1 {
      SplitWhole(parts[0], sep);
    } else {
      SplitJoin(parts[1..], sep);
      SplitCons(parts[0], JoinWith(parts[1..], sep), sep);
      assert [parts[0]] + parts[1..] == parts;
    }
  }

  /** Three separator-free pieces joined by the separator split back apart. */
  lemma SplitThree(a: string, b: string, c: string, sep: char)
    requires sep !in a && sep !in b && sep !in c
    ensures Split(a + [sep] + b + [sep] + c, sep) == [a, b, c]
  {
    var t := b + [sep] + c;
    SplitWhole(c, sep);
    SplitCons(b, c, sep);
    assert Split(t, sep) == [b, c];
    SplitCons(a, t, sep);
    assert a + [sep] + b + [sep] + c == a + [sep] + t;
  }

  /** Three separator-free pieces followed by a separator: whatever comes
      after it splits on its own. */
  lemma SplitThreeThen(a: string, b: string, c: string, rest: string, sep: char)
    requires sep !in a && sep !in b && sep !in c
    ensures Split(a + [sep] + b + [sep] + c + [sep] + rest, sep) == [a, b, c] + Split(rest, sep)
  {
    var u := c + [sep] + rest;
    var t := b + [sep] + u;
    SplitCons(c, rest, sep);
    SplitCons(b, u, sep);
    SplitCons(a, t, sep);
    assert a + [sep] + b + [sep] + c + [sep] + rest == a + [sep] + t;
  }
}
