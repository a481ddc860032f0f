/** The few java.lang behaviours the writer relies on: 32-bit `int` arithmetic,
    `String.compareTo`, and numbers that are stored but never computed on. */
module JavaLang {

  const INT_MIN: int := -0x8000_0000
  const INT_MAX: int := 0x7FFF_FFFF

  /** True iff `x` fits a Java `int`. */
  predicate IsInt(x: int) {
    INT_MIN <= x <= INT_MAX
  }

  /** The Java `int` holding the mathematical value `x`: two's complement wrap-around. */
  function WrapInt(x: int): (r: int)
    ensures IsInt(r)
    ensures (x - r) % 0x1_0000_0000 == 0
    ensures IsInt(x) ==> r == x
  {
    var m := x % 0x1_0000_0000;
    if m > INT_MAX then m - 0x1_0000_0000 else m
  }

  /** A Java `double`. Values are only stored and copied, so the bits stay opaque. */
  datatype Double = Double(bits: int)

  /** A boxed `java.lang.Number`: the short name of its runtime class
      (`Long`, `Double`, `Float`, ...) and its `doubleValue()`. */
  datatype Number = Number(className: string, doubleValue: Double)

  /** The UTF-16 code units Java stores for one character: the character itself
      below U+10000, otherwise a high and a low surrogate. */
  function Utf16(c: char): (u: seq<int>)
    ensures |u| == 1 <==> (c as int) < 0x1_0000
    ensures forall i :: 0 <= i < |u| ==> 0 <= u[i] < 0x1_0000
    ensures |u| == 1 ==> u[0] == c as int
    ensures |u| == 2 ==> 0xD800 <= u[0] < 0xDC00 && 0xDC00 <= u[1] < 0xE000
    ensures |u| == 2 ==> (c as int) == 0x1_0000 + (u[0] - 0xD800) * 0x400 + (u[1] - 0xDC00)
  {
    var n := c as int;
    if n < 0x1_0000 then [n] else [0xD800 + (n - 0x1_0000) / 0x400, 0xDC00 + (n - 0x1_0000) % 0x400]
  }

  /** A string as Java stores it: the UTF-16 units of its characters, in order. */
  function ToUtf16(s: string): (u: seq<int>)
    ensures |s| <= |u| <= 2 * |s|
    ensures forall i :: 0 <= i < |u| ==> 0 <= u[i] < 0x1_0000
  {
    if |s| == 0 then [] else Utf16(s[0]) + ToUtf16(s[1..])
  }

  /** The comparison `String.compareTo` makes on UTF-16 units: the difference
      of the first differing units, or else the difference of the lengths. */
  function CompareUnits(u: seq<int>, v: seq<int>): int
    decreases |u|
  {
    if |u| == 0 || |v| == 0 then |u| - |v|
    else if u[0] != v[0] then u[0] - v[0]
    else CompareUnits(u[1..], v[1..])
  }

  /** `String.compareTo`, which orders strings by their UTF-16 units (so a
      character above U+FFFF sorts by its high surrogate, below U+E000). */
  function CompareStrings(s: string, t: string): int {
    CompareUnits(ToUtf16(s), ToUtf16(t))
  }

  /** Lexicographic order on unit sequences, stated independently of
      `CompareUnits`: `u` is a proper prefix of `v`, or `u` is smaller at the
      first difference. */
  ghost predicate LexLess(u: seq<int>, v: seq<int>) {
    || (|u| < |v| && u == v[..|u|])
    || exists k :: 0 <= k < |u| && k < |v| && u[..k] == v[..k] && u[k] < v[k]
  }

  /** The first unit tells how many units a character takes: a surrogate
      starts a pair, anything else stands alone. */
  lemma FirstUnitTellsLength(c: char)
    ensures |Utf16(c)| == 1 <==> !(0xD800 <= Utf16(c)[0] < 0xE000)
  {
  }

  /** The units of one character determine the character and where the units
      of the next one start. */
  lemma Utf16PrefixUnique(a: char, b: char, x: seq<int>, y: seq<int>)
    requires Utf16(a) + x == Utf16(b) + y
    ensures a == b && x == y
  {
    var u := Utf16(a) + x;
    FirstUnitTellsLength(a);
    FirstUnitTellsLength(b);
    assert u[0] == Utf16(a)[0] && u[0] == Utf16(b)[0];
    if |Utf16(a)| == 1 {
      assert x == u[1..] && y == u[1..];
    } else {
      assert u[1] == Utf16(a)[1] && u[1] == Utf16(b)[1];
      assert x == u[2..] && y == u[2..];
    }
  }

  /** Different strings are stored as different unit sequences. */
  lemma {:induction false} ToUtf16Injective(s: string, t: string)
    requires ToUtf16(s) == ToUtf16(t)
    ensures s == t
    decreases |s|
  {
    if |s| != 0 && |t| != 0 {
      Utf16PrefixUnique(s[0], t[0], ToUtf16(s[1..]), ToUtf16(t[1..]));
      ToUtf16Injective(s[1..], t[1..]);
      assert s == [s[0]] + s[1..] && t == [t[0]] + t[1..];
    }
  }

  /** On units, the comparison is zero exactly on equal sequences. */
  lemma {:induction false} CompareUnitsZeroIff(u: seq<int>, v: seq<int>)
    ensures CompareUnits(u, v) == 0 <==> u == v
    decreases |u|
  {
    if |u| == 0 || |v| == 0 {
    } else if u[0] != v[0] {
    } else {
      CompareUnitsZeroIff(u[1..], v[1..]);
      assert u == [u[0]] + u[1..] && v == [v[0]] + v[1..];
    }
  }

  /** `compareTo` is zero exactly on equal strings. */
  lemma CompareStringsZeroIff(s: string, t: string)
    ensures CompareStrings(s, t) == 0 <==> s == t
  {
    CompareUnitsZeroIff(ToUtf16(s), ToUtf16(t));
    if ToUtf16(s) == ToUtf16(t) {
      ToUtf16Injective(s, t);
    }
  }

  /** On units, swapping the arguments negates the comparison. */
  lemma {:induction false} CompareUnitsAntisymmetric(u: seq<int>, v: seq<int>)
    ensures CompareUnits(v, u) == -CompareUnits(u, v)
    decreases |u|
  {
    if |u| == 0 || |v| == 0 {
    } else if u[0] != v[0] {
    } else {
      CompareUnitsAntisymmetric(u[1..], v[1..]);
    }
  }

  /** Swapping the arguments negates `compareTo` exactly. */
  lemma CompareStringsAntisymmetric(s: string, t: string)
    ensures CompareStrings(t, s) == -CompareStrings(s, t)
  {
    CompareUnitsAntisymmetric(ToUtf16(s), ToUtf16(t));
  }

  /** On units, a negative comparison is exactly the lexicographic order. */
  lemma {:induction false} CompareUnitsNegativeIffLexLess(u: seq<int>, v: seq<int>)
    ensures CompareUnits(u, v) < 0 <==> LexLess(u, v)
    decreases |u|
  {
    if |u| == 0 {
      assert u == v[..0];
    } else if |v| == 0 {
      assert !LexLess(u, v);
    } else if u[0] != v[0] {
      if u[0] < v[0] {
        assert u[..0] == v[..0];
      } else {
        forall k | 0 <= k < |u| && k < |v| && u[..k] == v[..k]
          ensures !(u[k] < v[k])
        {
        }
      }
    } else {
      var u', v' := u[1..], v[1..];
      CompareUnitsNegativeIffLexLess(u', v');
      if LexLess(u', v') {
        if |u'| < |v'| && u' == v'[..|u'|] {
          assert u == v[..|u|];
        } else {
          var k :| 0 <= k < |u'| && k < |v'| && u'[..k] == v'[..k] && u'[k] < v'[k];
          assert u[..k+1] == v[..k+1] by {
            assert u[..k+1] == [u[0]] + u'[..k];
            assert v[..k+1] == [v[0]] + v'[..k];
          }
          assert u[k+1] == u'[k] && v[k+1] == v'[k];
        }
      }
      if LexLess(u, v) {
        if |u| < |v| && u == v[..|u|] {
          assert u' == v'[..|u'|];
        } else {
          var k :| 0 <= k < |u| && k < |v| && u[..k] == v[..k] && u[k] < v[k];
          assert k > 0;
          assert u'[..k-1] == v'[..k-1] by {
            assert u'[..k-1] == u[..k][1..];
            assert v'[..k-1] == v[..k][1..];
          }
          assert u'[k-1] == u[k] && v'[k-1] == v[k];
        }
      }
    }
  }

  /** A negative `compareTo` is exactly the lexicographic order of the strings'
      UTF-16 units. */
  lemma CompareStringsNegativeIffLexLess(s: string, t: string)
    ensures CompareStrings(s, t) < 0 <==> LexLess(ToUtf16(s), ToUtf16(t))
  {
    CompareUnitsNegativeIffLexLess(ToUtf16(s), ToUtf16(t));
  }

  /** UTF-16 order is not code-point order: U+FFFF sorts after U+10000, whose
      high surrogate is U+D800, and `compareTo` returns the unit difference. */
  lemma CompareStringsSurrogateOrder()
    ensures CompareStrings("\U{FFFF}", "\U{10000}") == 0xFFFF - 0xD800
    ensures "\U{FFFF}"[0] < "\U{10000}"[0]
  {
    assert ToUtf16("\U{FFFF}") == [0xFFFF];
    assert ToUtf16("\U{10000}") == [0xD800, 0xDC00];
  }

  /** On units, the strict order of a negative comparison is transitive. */
  lemma {:induction false} CompareUnitsTransitive(a: seq<int>, b: seq<int>, c: seq<int>)
    requires CompareUnits(a, b) < 0 && CompareUnits(b, c) < 0
    ensures CompareUnits(a, c) < 0
    decreases |a|
  {
    if |a| == 0 || |b| == 0 || |c| == 0 {
    } else if a[0] != b[0] || b[0] != c[0] {
    } else {
      CompareUnitsTransitive(a[1..], b[1..], c[1..]);
    }
  }

  /** The strict order given by a negative `compareTo` is transitive. */
  lemma CompareStringsTransitive(a: string, b: string, c: string)
    requires CompareStrings(a, b) < 0 && CompareStrings(b, c) < 0
    ensures CompareStrings(a, c) < 0
  {
    CompareUnitsTransitive(ToUtf16(a), ToUtf16(b), ToUtf16(c));
  }
}
