/** Text values as the queue stores them, the byte-wise order strcmp imposes on
    them, and what a C reader sees in a NUL-terminated character buffer. */
module Text {

  /** The contents of a C string: the characters before its terminating NUL,
      so none of them is NUL. */
  type Text = s: seq<char> | '\0' !in s

  /** strcmp(a, b) < 0: lexicographic strict less-than. A proper prefix
      sorts first, because its terminating NUL is smaller than any character
      of a C string. Characters are compared by code point, while strcmp
      compares bytes as unsigned char; the two orders agree on byte-valued
      characters and on UTF-8 text, whose encoding keeps code-point order. */
  predicate Less(a: seq<char>, b: seq<char>): (r: bool)
    ensures r ==> a != b
  {
    if a == [] then b != []
    else if b == [] then false
    else if a[0] != b[0] then a[0] < b[0]
    else Less(a[1..], b[1..])
  }

  lemma {:induction false} LessIrreflexive(a: seq<char>)
    ensures !Less(a, a)
  {
    if a != [] {
      LessIrreflexive(a[1..]);
    }
  }

  lemma {:induction false} LessTransitive(a: seq<char>, b: seq<char>, c: seq<char>)
    requires Less(a, b) && Less(b, c)
    ensures Less(a, c)
  {
    if a != [] && a[0] == b[0] && b[0] == c[0] {
      LessTransitive(a[1..], b[1..], c[1..]);
    }
  }

  /** strcmp is a total order: two strings it does not tell apart are equal. */
  lemma {:induction false} LessTotal(a: seq<char>, b: seq<char>)
    ensures Less(a, b) || a == b || Less(b, a)
  {
    if a != [] && b != [] && a[0] == b[0] {
      LessTotal(a[1..], b[1..]);
      if a[1..] == b[1..] {
        assert a == [a[0]] + a[1..] && b == [b[0]] + b[1..];
      }
    }
  }

  /** The non-strict order a <= b, written as !Less(b, a), is transitive. */
  lemma AtMostTransitive(a: seq<char>, b: seq<char>, c: seq<char>)
    requires !Less(b, a) && !Less(c, b)
    ensures !Less(c, a)
  {
    LessTotal(a, b);
    if Less(c, a) && Less(a, b) {
      LessTransitive(c, a, b);
    }
  }

  /** The string a C reader finds in a character buffer: everything before
      the first NUL (all of it when there is none). */
  function CStringIn(buf: seq<char>): (r: Text)
    ensures |r| <= |buf| && r == buf[..|r|]
    ensures |r| < |buf| ==> buf[|r|] == '\0'
  {
    if buf == [] || buf[0] == '\0' then []
    else [buf[0]] + CStringIn(buf[1..])
  }

  /** Writing the first n characters of a text and then a NUL at offset n makes
      a buffer that reads back as exactly those n characters. */
  lemma {:induction false} CStringOfTerminated(buf: seq<char>, v: Text, n: nat)
    requires n < |buf| && n <= |v|
    requires buf[..n] == v[..n] && buf[n] == '\0'
    ensures CStringIn(buf) == v[..n]
  {
    if n > 0 {
      assert buf[0] == v[0];
      var rest: Text := v[1..];
      assert buf[1..][..n - 1] == rest[..n - 1];
      CStringOfTerminated(buf[1..], rest, n - 1);
      assert v[..n] == [v[0]] + rest[..n - 1];
    }
  }
}
