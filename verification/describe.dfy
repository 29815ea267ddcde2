/**
 `countAndDescribe`: hand back the element unchanged together with a
 Japanese sentence about its length. A length of zero is falsy, so it gets
 the "no values" sentence; any other length is rendered in decimal between
 "値は" ("there are") and "個です。" ("items."). The element is anything with
 a `length`, modelled as a sequence whose size is that length: an array as the
 sequence of its elements, and a JavaScript string as its sequence of UTF-16
 code units (`ToCodeUnits`), not as a Dafny `string`, whose characters are
 Unicode scalar values.
 */
module Describe {

  /** The sentence for an empty element: "there are no values". */
  const NoValueText: string := "値がありません"
  const CountPrefix: string := "値は"
  const CountSuffix: string := "個です。"

  predicate IsDigit(c: char) { '0' <= c <= '9' }

  predicate IsDecimal(s: string)
  {
    |s| > 0 && (forall i :: 0 <= i < |s| ==> IsDigit(s[i])) && (|s| > 1 ==> s[0] != '0')
  }

  function DigitChar(d: nat): (c: char)
    requires d < 10
    ensures IsDigit(c)
    ensures c as int - '0' as int == d
  {
    (d + '0' as int) as char
  }

  function DigitValue(c: char): (d: nat)
    requires IsDigit(c)
    ensures d < 10 && DigitChar(d) == c
  {
    c as int - '0' as int
  }

  /** The string a JavaScript number that is a non-negative integer converts to,
      for values below 10^21 (which covers every array or string length); from
      10^21 on JavaScript switches to exponent notation, which is not modelled. */
  function NatToDecimal(n: nat): (s: string)
    ensures IsDecimal(s)
    ensures n < 10 <==> |s| == 1
    decreases n
  {
    if n < 10 then [DigitChar(n)] else NatToDecimal(n / 10) + [DigitChar(n % 10)]
  }

  /** Reads a string of digits back as a number. */
  function DecimalValue(s: string): nat
    requires forall i :: 0 <= i < |s| ==> IsDigit(s[i])
    decreases |s|
  {
    if |s| == 0 then 0
    else DecimalValue(s[..|s| - 1]) * 10 + DigitValue(s[|s| - 1])
  }

  /** Rendering a count in decimal loses nothing: reading it back gives the count. */
  lemma {:induction false} DecimalRoundTrip(n: nat)
    ensures DecimalValue(NatToDecimal(n)) == n
    decreases n
  {
    var s := NatToDecimal(n);
    if n >= 10 {
      DecimalRoundTrip(n / 10);
      assert s[..|s| - 1] == NatToDecimal(n / 10);
    }
  }

  /** The tuple `[element, descriptionText]`. */
  function CountAndDescribe<E>(element: seq<E>): (r: (seq<E>, string))
    ensures r.0 == element
    ensures r.1 == NoValueText <==> |element| == 0
    ensures |element| > 0 ==>
      var n := |r.1| - |CountSuffix|;
      && |r.1| > |CountPrefix| + |CountSuffix|
      && r.1[..|CountPrefix|] == CountPrefix
      && r.1[n..] == CountSuffix
      && IsDecimal(r.1[|CountPrefix|..n])
      && DecimalValue(r.1[|CountPrefix|..n]) == |element|
  {
    var descriptionText :=
      if |element| != 0 then CountPrefix + NatToDecimal(|element|) + CountSuffix
      else NoValueText;
    if |element| != 0 then
      var d := descriptionText;
      assert d[|CountPrefix|..|d| - |CountSuffix|] == NatToDecimal(|element|);
      DecimalRoundTrip(|element|);
      assert d[0] != NoValueText[0] || d[1] != NoValueText[1];
      (element, descriptionText)
    else
      (element, descriptionText)
  }

  /** Two elements get the same description exactly when their lengths agree. */
  lemma DescriptionDeterminesCount<E>(a: seq<E>, b: seq<E>)
    ensures CountAndDescribe(a).1 == CountAndDescribe(b).1 <==> |a| == |b|
  {
  }

  /** A UTF-16 code unit, the element a JavaScript string's `length` counts. */
  newtype CodeUnit = u: int | 0 <= u < 0x1_0000

  /** The UTF-16 encoding of a string: characters outside the Basic Multilingual
      Plane become a surrogate pair, every other character one code unit. */
  function ToCodeUnits(s: string): (u: seq<CodeUnit>)
    ensures |s| <= |u| <= 2 * |s|
    ensures (forall i :: 0 <= i < |s| ==> (s[i] as int) < 0x1_0000) ==> |u| == |s|
  {
    if |s| == 0 then []
    else
      var c := s[0] as int;
      var head: seq<CodeUnit> :=
        if c < 0x1_0000 then [c as CodeUnit]
        else [(0xD800 + (c - 0x1_0000) / 0x400) as CodeUnit, (0xDC00 + (c - 0x1_0000) % 0x400) as CodeUnit];
      head + ToCodeUnits(s[1..])
  }

  /** A string holding one emoji has length 2, so it is described as two items. */
  lemma EmojiCountsTwoCodeUnits()
    ensures CountAndDescribe(ToCodeUnits("😀")).1 == "値は2個です。"
  {
    assert ToCodeUnits("😀") == [0xD83D as CodeUnit, 0xDE00 as CodeUnit];
    assert NatToDecimal(2) == "2";
    assert CountPrefix + "2" + CountSuffix == "値は2個です。";
  }

  /** The call at the top level: two hobbies give "値は2個です。". */
  lemma HobbiesExample()
    ensures CountAndDescribe(["Sports", "Cooking"]) == (["Sports", "Cooking"], "値は2個です。")
  {
    assert NatToDecimal(2) == "2";
    assert CountPrefix + "2" + CountSuffix == "値は2個です。";
  }
}
