/**
 * The macOS capability check: the host's OS version string, as bytes, is
 * compared with the minimum version `"12.3\n"` by Rust's ordering on byte
 * vectors, which is lexicographic and textual, not numeric.
 */
module MacUtils {
  import opened Primitives

  const Dot: byte := 0x2E
  const Newline: byte := 0x0A

  /** The bytes of `"12.3\n"`. */
  const MinVersion: seq<byte> := [0x31, 0x32, Dot, 0x33, Newline]

  /** `a < b` on byte vectors: the first differing byte decides, and a proper prefix is smaller. */
  predicate LexLess(a: seq<byte>, b: seq<byte>)
    decreases |a|
  {
    if |b| == 0 then false
    else if |a| == 0 then true
    else if a[0] != b[0] then a[0] < b[0]
    else LexLess(a[1..], b[1..])
  }

  /** `k` is the first index at which `a` and `b` differ. */
  ghost predicate FirstDifferenceAt(a: seq<byte>, b: seq<byte>, k: nat)
  {
    k < |a| && k < |b| && a[..k] == b[..k] && a[k] != b[k]
  }

  /**
   * `a >= b` holds exactly when `b` is a prefix of `a` (equality included), or
   * at the first differing index the byte of `a` is the larger.
   */
  lemma {:induction false} LexAtLeast(a: seq<byte>, b: seq<byte>)
    ensures !LexLess(a, b) <==> (b <= a || exists k: nat :: FirstDifferenceAt(a, b, k) && a[k] > b[k])
    decreases |a|
  {
    if |b| == 0 {
      assert b <= a;
    } else if |a| == 0 {
      assert !(b <= a);
    } else if a[0] != b[0] {
      if a[0] > b[0] {
        assert FirstDifferenceAt(a, b, 0);
      }
    } else {
      var a', b' := a[1..], b[1..];
      LexAtLeast(a', b');
      assert b <= a <==> b' <= a' by {
        if b' <= a' {
          assert b == [b[0]] + b' && a[..|b|] == [a[0]] + a'[..|b'|];
        }
      }
      if exists k: nat :: FirstDifferenceAt(a', b', k) && a'[k] > b'[k] {
        var k: nat :| FirstDifferenceAt(a', b', k) && a'[k] > b'[k];
        assert a[..k + 1] == [a[0]] + a'[..k] && b[..k + 1] == [b[0]] + b'[..k];
        assert FirstDifferenceAt(a, b, k + 1);
      }
      if exists k: nat :: FirstDifferenceAt(a, b, k) && a[k] > b[k] {
        var k: nat :| FirstDifferenceAt(a, b, k) && a[k] > b[k];
        assert k > 0;
        assert a[..k] == [a[0]] + a'[..k - 1] && b[..k] == [b[0]] + b'[..k - 1];
        assert FirstDifferenceAt(a', b', k - 1);
      }
    }
  }

  /**
   * Whether the host's OS version counts as supported: its bytes compare
   * `>=` the bytes of `"12.3\n"`.
   */
  function IsSupported(osVersion: seq<byte>): (supported: bool)
    ensures supported <==>
              || MinVersion <= osVersion
              || exists k: nat :: FirstDifferenceAt(osVersion, MinVersion, k) && osVersion[k] > MinVersion[k]
  {
    LexAtLeast(osVersion, MinVersion);
    !LexLess(osVersion, MinVersion)
  }

  // ---------------------------------------------------------------------------
  // Version strings as numbers: rendering, parsing and a numeric comparison.
  // ---------------------------------------------------------------------------

  predicate IsDigit(b: byte)
  {
    0x30 <= b <= 0x39
  }

  predicate AllDigits(s: seq<byte>)
  {
    forall i | 0 <= i < |s| :: IsDigit(s[i])
  }

  function DigitByte(d: nat): (b: byte)
    requires d < 10
    ensures IsDigit(b)
  {
    (0x30 + d) as byte
  }

  /** The decimal rendering of `n`, without leading zeros. */
  function Decimal(n: nat): (ds: seq<byte>)
    ensures |ds| > 0 && AllDigits(ds)
    decreases n
  {
    if n < 10 then [DigitByte(n)]
    else Decimal(n / 10) + [DigitByte(n % 10)]
  }

  /** The number a run of decimal digits denotes. */
  function DigitsValue(ds: seq<byte>): nat
    requires AllDigits(ds)
    decreases |ds|
  {
    if ds == [] then 0
    else DigitsValue(ds[..|ds| - 1]) * 10 + (ds[|ds| - 1] as int - 0x30)
  }

  lemma {:induction false} DecimalRoundTrip(n: nat)
    ensures DigitsValue(Decimal(n)) == n
    decreases n
  {
    var ds := Decimal(n);
    if n >= 10 {
      DecimalRoundTrip(n / 10);
      assert ds[..|ds| - 1] == Decimal(n / 10);
    }
  }

  /** The length of the run of digits that `s` starts with. */
  function LeadingDigits(s: seq<byte>): (n: nat)
    ensures n <= |s| && AllDigits(s[..n])
    ensures n < |s| ==> !IsDigit(s[n])
    decreases |s|
  {
    if s == [] || !IsDigit(s[0]) then 0
    else
      var n := 1 + LeadingDigits(s[1..]);
      assert s[..n] == [s[0]] + s[1..][..n - 1];
      n
  }

  lemma {:induction false} LeadingDigitsOfDigitRun(ds: seq<byte>, rest: seq<byte>)
    requires AllDigits(ds)
    requires rest == [] || !IsDigit(rest[0])
    ensures LeadingDigits(ds + rest) == |ds|
    decreases |ds|
  {
    if ds != [] {
      assert (ds + rest)[1..] == ds[1..] + rest;
      LeadingDigitsOfDigitRun(ds[1..], rest);
    } else {
      assert ds + rest == rest;
    }
  }

  datatype Version = Version(major: nat, minor: nat)

  /**
   * Reads `major[.minor]` from the start of a version string: the leading
   * digits give the major number; a dot followed by digits gives the minor
   * number, 0 when absent; whatever follows is ignored.
   */
  function ParseVersion(s: seq<byte>): Option<Version>
  {
    var n := LeadingDigits(s);
    if n == 0 then None
    else
      var rest := s[n..];
      var minor :=
        if |rest| > 0 && rest[0] == Dot then DigitsValue(rest[1..][..LeadingDigits(rest[1..])])
        else 0;
      Some(Version(DigitsValue(s[..n]), minor))
  }

  /** A digit run, a dot, a digit run and a tail that does not start with a digit parse as two numbers. */
  lemma ParseDigitRuns(majorDigits: seq<byte>, minorDigits: seq<byte>, tail: seq<byte>)
    requires AllDigits(majorDigits) && AllDigits(minorDigits) && majorDigits != []
    requires tail == [] || !IsDigit(tail[0])
    ensures ParseVersion(majorDigits + ([Dot] + (minorDigits + tail)))
              == Some(Version(DigitsValue(majorDigits), DigitsValue(minorDigits)))
  {
    var minorPart := minorDigits + tail;
    var afterMajor := [Dot] + minorPart;
    var s := majorDigits + afterMajor;
    LeadingDigitsOfDigitRun(majorDigits, afterMajor);
    assert s[..|majorDigits|] == majorDigits;
    assert s[|majorDigits|..] == afterMajor;
    assert afterMajor[1..] == minorPart;
    LeadingDigitsOfDigitRun(minorDigits, tail);
    assert minorPart[..|minorDigits|] == minorDigits;
  }

  lemma ParseDottedVersion(major: nat, minor: nat, tail: seq<byte>)
    requires tail == [] || !IsDigit(tail[0])
    ensures ParseVersion(Decimal(major) + [Dot] + Decimal(minor) + tail) == Some(Version(major, minor))
  {
    var majorDigits, minorDigits := Decimal(major), Decimal(minor);
    assert majorDigits + [Dot] + minorDigits + tail == majorDigits + ([Dot] + (minorDigits + tail));
    ParseDigitRuns(majorDigits, minorDigits, tail);
    DecimalRoundTrip(major);
    DecimalRoundTrip(minor);
  }

  /** Numeric check: the parsed version is at least 12.3. */
  function IsSupportedNumeric(osVersion: seq<byte>): (supported: bool)
    ensures supported ==> ParseVersion(osVersion).Some?
  {
    match ParseVersion(osVersion)
    case None => false
    case Some(v) => v.major > 12 || (v.major == 12 && v.minor >= 3)
  }

  /** The numeric check ranks every `major.minor` string by its numbers. */
  lemma NumericOrderOnDottedVersions(major: nat, minor: nat, tail: seq<byte>)
    requires tail == [] || !IsDigit(tail[0])
    ensures IsSupportedNumeric(Decimal(major) + [Dot] + Decimal(minor) + tail) <==>
              (major > 12 || (major == 12 && minor >= 3))
  {
    ParseDottedVersion(major, minor, tail);
  }

  /** `"12"` renders as the bytes `1`, `2`. */
  lemma DecimalTwelve()
    ensures Decimal(12) == [0x31, 0x32]
  {
    assert Decimal(1) == [0x31];
  }

  /**
   * Textual order misranks macOS 12 releases with a two-digit minor number
   * from 10 to 29: `"12.10"` compares below `"12.3\n"` because byte `1` is
   * below byte `3` at index 3, although 12.10 is numerically newer than 12.3.
   */
  lemma TextualOrderMisranksTwoDigitMinor(minor: nat, tail: seq<byte>)
    requires 10 <= minor < 30
    requires tail == [] || !IsDigit(tail[0])
    ensures !IsSupported(Decimal(12) + [Dot] + Decimal(minor) + tail)
    ensures IsSupportedNumeric(Decimal(12) + [Dot] + Decimal(minor) + tail)
  {
    var v := Decimal(12) + [Dot] + Decimal(minor) + tail;
    DecimalTwelve();
    assert Decimal(minor) == Decimal(minor / 10) + [DigitByte(minor % 10)];
    assert Decimal(minor / 10) == [DigitByte(minor / 10)];
    assert v[3] < 0x33;
    assert LexLess(v[3..], MinVersion[3..]);
    assert v[2..][1..] == v[3..] && MinVersion[2..][1..] == MinVersion[3..];
    assert LexLess(v[2..], MinVersion[2..]);
    assert v[1..][1..] == v[2..] && MinVersion[1..][1..] == MinVersion[2..];
    assert LexLess(v[1..], MinVersion[1..]);
    NumericOrderOnDottedVersions(12, minor, tail);
  }

  /**
   * `"12.3"` without the trailing newline is a proper prefix of `"12.3\n"`, so
   * it compares below the minimum, although it is the minimum numerically.
   */
  lemma TextualOrderRejectsBareMinimum()
    ensures !IsSupported(Decimal(12) + [Dot] + Decimal(3))
    ensures IsSupportedNumeric(Decimal(12) + [Dot] + Decimal(3))
  {
    DecimalTwelve();
    var v := Decimal(12) + [Dot] + Decimal(3);
    assert v == MinVersion[..4];
    NumericOrderOnDottedVersions(12, 3, []);
    assert Decimal(12) + [Dot] + Decimal(3) + [] == v;
  }

  /** Where the first differing byte is in the major number, textual order agrees with numeric order. */
  lemma TextualOrderOnMajorNumbers()
    ensures IsSupported(Decimal(13) + [Dot] + Decimal(0))
    ensures !IsSupported(Decimal(11) + [Dot] + Decimal(9))
    ensures IsSupported(MinVersion)
  {
    assert Decimal(13) == [0x31, 0x33] by { assert Decimal(1) == [0x31]; }
    assert Decimal(11) == [0x31, 0x31] by { assert Decimal(1) == [0x31]; }
    var newer := Decimal(13) + [Dot] + Decimal(0);
    var older := Decimal(11) + [Dot] + Decimal(9);
    assert FirstDifferenceAt(newer, MinVersion, 1);
    assert older[1..][1..] == older[2..];
    assert LexLess(older[1..], MinVersion[1..]);
  }
}
