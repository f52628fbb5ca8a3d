/** Byte strings of the kernel and the host bridge. A byte is a character below 256, and a C string is
    what stands before the first NUL. */
module Text {
  datatype Option<+T> = None | Some(value: T)

  const NUL: char := '\0'

  predicate IsBytes(s: string) {
    forall i :: 0 <= i < |s| ==> s[i] as int < 256
  }

  predicate IsAscii(s: string) {
    forall i :: 0 <= i < |s| ==> s[i] as int < 128
  }

  // What a C program reads at `i`: the string's terminator stands behind its last byte.
  function At(s: string, i: nat): char {
    if i < |s| then s[i] else NUL
  }

  function CStr(s: string): (r: string)
    ensures |r| <= |s| && r == s[..|r|]
    ensures NUL !in r && At(s, |r|) == NUL
  {
    if s == [] || s[0] == NUL then [] else [s[0]] + CStr(s[1..])
  }

  function Take(s: string, n: nat): string {
    if |s| <= n then s else s[..n]
  }

  lemma {:induction false} CStrUnique(s: string, n: nat)
    requires n <= |s| && NUL !in s[..n] && At(s, n) == NUL
    ensures CStr(s) == s[..n]
  {
    if n > 0 {
      assert s[0] == s[..n][0] && s[1..][..n - 1] == s[..n][1..];
      CStrUnique(s[1..], n - 1);
    }
  }

  lemma CStrWhole(s: string)
    requires NUL !in s
    ensures CStr(s) == s
  {
    CStrUnique(s, |s|);
  }

  lemma Assoc<T>(a: seq<T>, b: seq<T>, c: seq<T>)
    ensures a + (b + c) == a + b + c
  {
  }

  lemma Unit<T>(a: seq<T>)
    ensures a + [] == a && [] + a == a
  {
  }

  // ---------------------------------------------------------------- splitting a byte stream

  function Prepend(c: char, separator: char, parts: seq<string>): (r: seq<string>)
    requires |parts| > 0
    ensures |r| > 0
  {
    if c == separator then [[]] + parts else [[c] + parts[0]] + parts[1..]
  }

  // The pieces between separators; there is always a last, possibly empty, one.
  function Split(s: string, separator: char): (parts: seq<string>)
    ensures |parts| > 0
  {
    if s == [] then [[]] else Prepend(s[0], separator, Split(s[1..], separator))
  }

  function Join(parts: seq<string>, separator: char): string
    requires |parts| > 0
  {
    if |parts| == 1 then parts[0] else parts[0] + [separator] + Join(parts[1..], separator)
  }

  // The complete lines of a stream, and what follows the last newline.
  function Lines(s: string): seq<string> {
    var parts := Split(s, '\n');
    parts[..|parts| - 1]
  }

  function Unfinished(s: string): string {
    var parts := Split(s, '\n');
    parts[|parts| - 1]
  }

  function WithoutReturns(s: string): string {
    if s == [] then [] else (if s[0] == '\r' then [] else [s[0]]) + WithoutReturns(s[1..])
  }

  lemma JoinPrepend(c: char, separator: char, parts: seq<string>)
    requires |parts| > 0
    ensures Join(Prepend(c, separator, parts), separator) == [c] + Join(parts, separator)
  {
    var pre := Prepend(c, separator, parts);
    if c == separator {
      assert pre[1..] == parts;
    } else {
      assert pre[1..] == parts[1..];
      assert |parts| > 1 ==>
        [c] + parts[0] + [separator] + Join(parts[1..], separator)
        == [c] + (parts[0] + [separator] + Join(parts[1..], separator));
    }
  }

  /** Splitting cuts exactly at the separators: joined again the pieces give the string, and no piece
      holds a separator. */
  lemma {:induction false} SplitJoins(s: string, separator: char)
    ensures Join(Split(s, separator), separator) == s
    ensures forall i :: 0 <= i < |Split(s, separator)| ==> separator !in Split(s, separator)[i]
  {
    if s != [] {
      SplitJoins(s[1..], separator);
      JoinPrepend(s[0], separator, Split(s[1..], separator));
      hide Join;
    }
  }

  // Two split streams put one behind the other.
  function Glue(p: seq<string>, q: seq<string>): (r: seq<string>)
    requires |p| > 0 && |q| > 0
    ensures |r| > 0
  {
    p[..|p| - 1] + [p[|p| - 1] + q[0]] + q[1..]
  }

  lemma GluePrepend(c: char, separator: char, p: seq<string>, q: seq<string>)
    requires |p| > 0 && |q| > 0
    ensures Glue(Prepend(c, separator, p), q) == Prepend(c, separator, Glue(p, q))
  {
    if c != separator && |p| == 1 {
      assert [c] + p[0] + q[0] == [c] + (p[0] + q[0]);
    }
  }

  /** Appending to a stream only extends the piece it was left in. */
  lemma {:induction false} SplitAppend(a: string, b: string, separator: char)
    ensures Split(a + b, separator) == Glue(Split(a, separator), Split(b, separator))
  {
    if a == [] {
      assert a + b == b;
      var q := Split(b, separator);
      assert "" + q[0] == q[0];
    } else {
      assert (a + b)[1..] == a[1..] + b && (a + b)[0] == a[0];
      SplitAppend(a[1..], b, separator);
      GluePrepend(a[0], separator, Split(a[1..], separator), Split(b, separator));
      hide Glue, Prepend;
    }
  }

  lemma {:induction false} SplitWhole(s: string, separator: char)
    requires separator !in s
    ensures Split(s, separator) == [s]
  {
    if s != [] {
      SplitWhole(s[1..], separator);
      assert [s[0]] + s[1..] == s;
    }
  }

  lemma SplitOne(c: char, separator: char)
    ensures Split([c], separator) == if c == separator then [[], []] else [[c]]
  {
    assert [c][1..] == "" && Split("", separator) == [""] && [c] + "" == [c];
  }

  // One more byte of a stream: it ends a line, or grows the unfinished one.
  lemma LinesStep(s: string, c: char)
    ensures c == '\n' ==> Lines(s + [c]) == Lines(s) + [Unfinished(s)] && Unfinished(s + [c]) == []
    ensures c != '\n' ==> Lines(s + [c]) == Lines(s) && Unfinished(s + [c]) == Unfinished(s) + [c]
  {
    SplitAppend(s, [c], '\n');
    SplitOne(c, '\n');
    hide Split;
    var p := Split(s, '\n');
    assert p[|p| - 1] + "" == p[|p| - 1];
  }

  lemma {:induction false} WithoutReturnsAppend(a: string, b: string)
    ensures WithoutReturns(a + b) == WithoutReturns(a) + WithoutReturns(b)
  {
    if a == [] {
      assert a + b == b;
    } else {
      assert (a + b)[1..] == a[1..] + b;
      WithoutReturnsAppend(a[1..], b);
    }
  }

  // A field, a separator, and the rest.
  lemma SplitField(field: string, rest: string, separator: char)
    requires separator !in field
    ensures Split(field + [separator] + rest, separator) == [field] + Split(rest, separator)
  {
    SplitWhole(field, separator);
    SplitAppend(field, [separator] + rest, separator);
    assert ([separator] + rest)[1..] == rest;
    assert field + [separator] + rest == field + ([separator] + rest);
    assert field + [] == field;
  }
}
