/**
 * Separator-delimited fields of an octet string: how a receiver cuts a
 * PLAIN message at its NULs or an XOAUTH2 message at its ^A octets.
 */
module Fields {
  import opened Utf8

  /** The maximal runs of `b` between occurrences of `sep`. */
  function Split(b: seq<Byte>, sep: Byte): (parts: seq<seq<Byte>>)
    ensures |parts| >= 1
  {
    if b == [] then [[]]
    else
      var rest := Split(b[1..], sep);
      if b[0] == sep then [[]] + rest else [[b[0]] + rest[0]] + rest[1..]
  }

  /** A string without the separator is a single field. */
  lemma {:induction false} SplitNone(a: seq<Byte>, sep: Byte)
    requires sep !in a
    ensures Split(a, sep) == [a]
  {
    if a != [] {
      SplitNone(a[1..], sep);
      assert [a[0]] + a[1..] == a;
    }
  }

  /** A separator-free field followed by the separator is split off as the first field. */
  lemma {:induction false} SplitField(a: seq<Byte>, sep: Byte, c: seq<Byte>)
    requires sep !in a
    ensures Split(a + [sep] + c, sep) == [a] + Split(c, sep)
  {
    var b := a + [sep] + c;
    if a == [] {
      assert b[0] == sep && b[1..] == c;
    } else {
      assert b[0] == a[0] && b[1..] == a[1..] + [sep] + c;
      SplitField(a[1..], sep, c);
      assert [a[0]] + a[1..] == a;
    }
  }

  /** The fields written out with `sep` between consecutive ones. */
  function Join(parts: seq<seq<Byte>>, sep: Byte): seq<Byte>
    requires |parts| >= 1
  {
    if |parts| == 1 then parts[0] else parts[0] + [sep] + Join(parts[1..], sep)
  }

  /** Cutting at the separators and joining again gives back the string. */
  lemma {:induction false} JoinSplit(b: seq<Byte>, sep: Byte)
    ensures Join(Split(b, sep), sep) == b
  {
    if b != [] {
      var rest := Split(b[1..], sep);
      JoinSplit(b[1..], sep);
      if b[0] == sep {
        assert ([[]] + rest)[1..] == rest;
      } else {
        var parts := [[b[0]] + rest[0]] + rest[1..];
        assert parts[1..] == rest[1..];
        assert [b[0]] + b[1..] == b;
      }
    }
  }

  /** Joining separator-free fields and cutting again gives back the fields. */
  lemma {:induction false} SplitJoin(parts: seq<seq<Byte>>, sep: Byte)
    requires |parts| >= 1
    requires forall i :: 0 <= i < |parts| ==> sep !in parts[i]
    ensures Split(Join(parts, sep), sep) == parts
  {
    if |parts| == 1 {
      SplitNone(parts[0], sep);
    } else {
      SplitJoin(parts[1..], sep);
      SplitField(parts[0], sep, Join(parts[1..], sep));
      assert [parts[0]] + parts[1..] == parts;
    }
  }
}
