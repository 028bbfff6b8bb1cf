/** The composite key of the price index: a price and a stock identifier,
    ordered first by price and then by identifier. The price is an `int`
    here, so the floating-point corner cases (NaN, signed zero) do not
    arise. */
module PriceTreeKey {
  import opened Wrappers

  /** A UTF-16 code unit, the element type of a Java `String`: a character
      outside the Basic Multilingual Plane is a pair of them. */
  type CodeUnit = x: int | 0 <= x < 0x1_0000

  /** A Java `String`, as its sequence of UTF-16 code units. */
  type JavaString = seq<CodeUnit>

  datatype PriceTreeKey = PriceTreeKey(price: int, stockId: JavaString)

  /** The sign of a comparison result. */
  function Sign(x: int): int
  {
    if x < 0 then -1 else if x > 0 then 1 else 0
  }

  /** `String.compareTo`: the difference of the first pair of differing
      code units, or else the difference of the lengths. */
  function StringCompareTo(a: JavaString, b: JavaString): (r: int)
    ensures r == 0 <==> a == b
    decreases |a|
  {
    if |a| == 0 || |b| == 0 then |a| - |b|
    else if a[0] != b[0] then a[0] - b[0]
    else
      var r := StringCompareTo(a[1..], b[1..]);
      assert r == 0 ==> a == [a[0]] + a[1..] == [b[0]] + b[1..] == b;
      r
  }

  /** Lexicographic order on strings (a proper prefix is smaller), stated
      independently of the comparison function. */
  ghost predicate StringLess(a: JavaString, b: JavaString)
    decreases |a|
  {
    if |a| == 0 then |b| > 0
    else if |b| == 0 then false
    else a[0] < b[0] || (a[0] == b[0] && StringLess(a[1..], b[1..]))
  }

  /** Swapping the strings negates the comparison. */
  lemma {:induction false} StringCompareToAntisymmetric(a: JavaString, b: JavaString)
    ensures StringCompareTo(a, b) == -StringCompareTo(b, a)
    decreases |a|
  {
    if |a| != 0 && |b| != 0 && a[0] == b[0] {
      StringCompareToAntisymmetric(a[1..], b[1..]);
    }
  }

  /** The comparison is negative exactly in lexicographic order. */
  lemma {:induction false} StringCompareToIsLexicographic(a: JavaString, b: JavaString)
    ensures StringCompareTo(a, b) < 0 <==> StringLess(a, b)
    decreases |a|
  {
    if |a| != 0 && |b| != 0 && a[0] == b[0] {
      StringCompareToIsLexicographic(a[1..], b[1..]);
    }
  }

  /** The comparison is transitive. */
  lemma {:induction false} StringCompareToTransitive(a: JavaString, b: JavaString, c: JavaString)
    requires StringCompareTo(a, b) < 0 && StringCompareTo(b, c) < 0
    ensures StringCompareTo(a, c) < 0
    decreases |a|
  {
    if |a| != 0 && |b| != 0 && |c| != 0 && a[0] == b[0] && b[0] == c[0] {
      StringCompareToTransitive(a[1..], b[1..], c[1..]);
    }
  }

  /** `compareTo`: a strictly smaller price gives -1, a strictly larger
      price gives 1, and equal prices defer to the identifiers. */
  function CompareTo(a: PriceTreeKey, other: PriceTreeKey): (r: int)
    ensures a.price < other.price ==> r == -1
    ensures a.price > other.price ==> r == 1
    ensures a.price == other.price ==> r == StringCompareTo(a.stockId, other.stockId)
    ensures r == 0 <==> a == other
  {
    if a.price < other.price then -1
    else if a.price > other.price then 1
    else StringCompareTo(a.stockId, other.stockId)
  }

  /** `equals`: no key equals a missing object; otherwise the prices and the
      identifiers must both be equal. */
  function Equals(a: PriceTreeKey, obj: Option<PriceTreeKey>): (r: bool)
    ensures r <==> obj.Some? && obj.value.price == a.price && obj.value.stockId == a.stockId
  {
    match obj
    case None => false
    case Some(other) =>
      if a.price != other.price then false
      else a.stockId == other.stockId
  }

  /** The order that `compareTo` induces: lexicographic on (price, stockId). */
  ghost predicate KeyLess(a: PriceTreeKey, b: PriceTreeKey)
  {
    a.price < b.price || (a.price == b.price && StringLess(a.stockId, b.stockId))
  }

  lemma CompareToIsLexicographic(a: PriceTreeKey, b: PriceTreeKey)
    ensures CompareTo(a, b) < 0 <==> KeyLess(a, b)
  {
    StringCompareToIsLexicographic(a.stockId, b.stockId);
  }

  lemma CompareToAntisymmetric(a: PriceTreeKey, b: PriceTreeKey)
    ensures Sign(CompareTo(a, b)) == -Sign(CompareTo(b, a))
  {
    StringCompareToAntisymmetric(a.stockId, b.stockId);
  }

  lemma CompareToTransitive(a: PriceTreeKey, b: PriceTreeKey, c: PriceTreeKey)
    requires CompareTo(a, b) < 0 && CompareTo(b, c) < 0
    ensures CompareTo(a, c) < 0
  {
    if a.price == b.price == c.price {
      StringCompareToTransitive(a.stockId, b.stockId, c.stockId);
    }
  }

  /** Exactly one of less, equal and greater holds for every pair of keys. */
  lemma CompareToTotal(a: PriceTreeKey, b: PriceTreeKey)
    ensures a == b || KeyLess(a, b) || KeyLess(b, a)
    ensures !(KeyLess(a, b) && KeyLess(b, a))
  {
    CompareToIsLexicographic(a, b);
    CompareToIsLexicographic(b, a);
    CompareToAntisymmetric(a, b);
  }

  /** Keys that are `equals` compare as 0, and conversely. */
  lemma EqualsAgreesWithCompareTo(a: PriceTreeKey, b: PriceTreeKey)
    ensures Equals(a, Some(b)) <==> CompareTo(a, b) == 0
  {
  }

  /** A key equals itself. */
  lemma EqualsReflexive(a: PriceTreeKey)
    ensures Equals(a, Some(a))
  {
  }

  /** A few concrete comparisons: the price decides first, and stock ids
      compare by code units, so a single unit 0xFFFF sorts after a
      surrogate pair even though the pair encodes a larger character. */
  lemma ExampleOrder()
    ensures CompareTo(PriceTreeKey(1, [0x41]), PriceTreeKey(1, [0x42])) < 0
    ensures CompareTo(PriceTreeKey(1, [0x42]), PriceTreeKey(2, [0x41])) < 0
    ensures CompareTo(PriceTreeKey(1, [0x41]), PriceTreeKey(2, [0x41])) < 0
    ensures CompareTo(PriceTreeKey(1, [0xFFFF]), PriceTreeKey(1, [0xD800, 0xDC00])) > 0
  {
  }
}
