/** NUL-terminated byte strings inside the buffer, and the two C library
    routines the reader applies to them: `strnlen` and `strcmp`. A string is
    the run of bytes from a position up to (not including) the first NUL. */
module CString {
  import opened BymlTypes

  /** `strnlen(&s[p], maxLen)`: the length of the string at `p`, or
      `maxLen` when none of the first `maxLen` bytes is NUL. */
  function StrNLen(s: seq<Byte>, p: nat, maxLen: nat): (n: nat)
    requires p + maxLen <= |s|
    ensures n <= maxLen
    ensures forall k :: p <= k < p + n ==> s[k] != 0
    ensures n < maxLen ==> s[p + n] == 0
    decreases maxLen
  {
    if maxLen == 0 || s[p] == 0 then 0 else 1 + StrNLen(s, p + 1, maxLen - 1)
  }

  /** Some byte in [p, end) is NUL. */
  predicate NulBefore(s: seq<Byte>, p: nat, end: nat)
    requires end <= |s|
  {
    p < end && StrNLen(s, p, end - p) < end - p
  }

  /** A string ending before `end` also ends before any later bound. */
  lemma NulBeforeExtends(s: seq<Byte>, p: nat, end: nat, end': nat)
    requires end <= end' <= |s|
    requires NulBefore(s, p, end)
    ensures NulBefore(s, p, end')
    ensures StrNLen(s, p, end' - p) == StrNLen(s, p, end - p)
  {
  }

  /** The string a pointer into the buffer denotes. */
  function CStr(s: seq<Byte>, p: nat): (r: seq<Byte>)
    requires NulBefore(s, p, |s|)
    ensures p + |r| < |s| && r == s[p..p + |r|]
    ensures 0 !in r && s[p + |r|] == 0
  {
    s[p..p + StrNLen(s, p, |s| - p)]
  }

  /** `strcmp` on two C strings (byte sequences without NUL): negative,
      zero or positive, comparing bytes as unsigned characters. */
  function Compare(a: seq<Byte>, b: seq<Byte>): (r: int)
    ensures -1 <= r <= 1
  {
    if a == [] && b == [] then 0
    else if a == [] then -1
    else if b == [] then 1
    else if a[0] < b[0] then -1
    else if a[0] > b[0] then 1
    else Compare(a[1..], b[1..])
  }

  /** Lexicographic order, stated without recursion: `a` is a proper prefix
      of `b`, or the first differing byte of `a` is smaller. */
  ghost predicate Less(a: seq<Byte>, b: seq<Byte>) {
    (|a| < |b| && a == b[..|a|]) ||
    exists k :: 0 <= k < |a| && k < |b| && a[..k] == b[..k] && a[k] < b[k]
  }

  lemma LessTail(a: seq<Byte>, b: seq<Byte>)
    requires a != [] && b != [] && a[0] == b[0]
    ensures Less(a, b) <==> Less(a[1..], b[1..])
  {
    if Less(a, b) {
      if |a| < |b| && a == b[..|a|] {
        assert a[1..] == b[1..][..|a[1..]|];
      } else {
        var k :| 0 <= k < |a| && k < |b| && a[..k] == b[..k] && a[k] < b[k];
        assert k != 0;
        assert a[1..][..k - 1] == a[1..k] == b[1..k] == b[1..][..k - 1];
        assert a[1..][k - 1] < b[1..][k - 1];
      }
    }
    if Less(a[1..], b[1..]) {
      var a', b' := a[1..], b[1..];
      if |a'| < |b'| && a' == b'[..|a'|] {
        assert a == [a[0]] + a' && b[..|a|] == [b[0]] + b'[..|a'|];
      } else {
        var k :| 0 <= k < |a'| && k < |b'| && a'[..k] == b'[..k] && a'[k] < b'[k];
        assert a[..k + 1] == [a[0]] + a'[..k] && b[..k + 1] == [b[0]] + b'[..k];
        assert a[k + 1] < b[k + 1];
      }
    }
  }

  /** `strcmp` is negative exactly on lexicographically smaller strings,
      zero exactly on equal ones. */
  lemma {:induction false} CompareMeaning(a: seq<Byte>, b: seq<Byte>)
    ensures Compare(a, b) < 0 <==> Less(a, b)
    ensures Compare(a, b) == 0 <==> a == b
    ensures Compare(a, b) > 0 <==> Less(b, a)
  {
    if a == [] && b == [] {
    } else if a == [] {
      assert a == b[..0];
    } else if b == [] {
      assert b == a[..0];
    } else if a[0] < b[0] {
      assert a[..0] == b[..0];
      NotLessFirstByte(a, b);
    } else if a[0] > b[0] {
      assert a[..0] == b[..0];
      NotLessFirstByte(b, a);
    } else {
      CompareMeaning(a[1..], b[1..]);
      LessTail(a, b);
      LessTail(b, a);
      if a[1..] == b[1..] {
        assert a == [a[0]] + a[1..] && b == [b[0]] + b[1..];
      }
    }
  }

  /** `strcmp` is zero exactly on equal strings. */
  lemma {:induction false} CompareZero(a: seq<Byte>, b: seq<Byte>)
    ensures Compare(a, b) == 0 <==> a == b
  {
    if a != [] && b != [] && a[0] == b[0] {
      CompareZero(a[1..], b[1..]);
      assert a == [a[0]] + a[1..] && b == [b[0]] + b[1..];
    }
  }

  lemma NotLessFirstByte(a: seq<Byte>, b: seq<Byte>)
    requires a != [] && b != [] && a[0] < b[0]
    ensures !Less(b, a)
  {
  }

  /** Strict order: irreflexive, asymmetric and transitive. */
  lemma LessIsStrictOrder(a: seq<Byte>, b: seq<Byte>, c: seq<Byte>)
    ensures !Less(a, a)
    ensures Less(a, b) ==> !Less(b, a)
    ensures Less(a, b) && Less(b, c) ==> Less(a, c)
  {
    CompareMeaning(a, a);
    CompareMeaning(a, b);
    CompareMeaning(b, a);
    CompareMeaning(b, c);
    CompareMeaning(a, c);
    CompareAntisymmetric(a, b);
    if Compare(a, b) < 0 && Compare(b, c) < 0 {
      CompareTransitive(a, b, c);
    }
  }

  lemma {:induction false} CompareAntisymmetric(a: seq<Byte>, b: seq<Byte>)
    ensures Compare(a, b) == -Compare(b, a)
  {
    if a != [] && b != [] && a[0] == b[0] {
      CompareAntisymmetric(a[1..], b[1..]);
    }
  }

  lemma {:induction false} CompareTransitive(a: seq<Byte>, b: seq<Byte>, c: seq<Byte>)
    requires Compare(a, b) < 0 && Compare(b, c) < 0
    ensures Compare(a, c) < 0
  {
    if a != [] && b != [] && c != [] && a[0] == b[0] == c[0] {
      CompareTransitive(a[1..], b[1..], c[1..]);
    }
  }
}
