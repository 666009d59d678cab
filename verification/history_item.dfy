/**
 * One entry of the undo/redo history: the text `before` that stood at offset
 * `start` was replaced by the text `after`. The history holds these as mutable
 * records, because batching grows the newest one in place.
 */
module HistoryItems {

  /** The value of a history record at one moment. */
  datatype Entry = Entry(start: int, before: string, after: string)

  /** The mutable history record (`CTEditorHistoryItem`). */
  class Item {
    var mmStart: int
    var mmBefore: string
    var mmAfter: string

    /** Stores its arguments as they are; nothing is validated. */
    constructor (start: int, before: string, after: string)
      ensures mmStart == start && mmBefore == before && mmAfter == after
    {
      mmStart := start;
      mmBefore := before;
      mmAfter := after;
    }

    /** The record's current contents as a value. */
    function Value(): Entry
      reads this
    {
      Entry(mmStart, mmBefore, mmAfter)
    }

    /**
     * The debugging rendering: a fixed header, the start offset in decimal,
     * then the two texts, each after its own label, and a closing brace.
     */
    function ToString(): (r: string)
      reads this
      ensures |r| == |Header| + |IntToString(mmStart)| + |BeforeLabel + mmBefore| + |AfterLabel + mmAfter + "}"|
      ensures r[..|Header|] == Header
      ensures r[|Header|..|Header| + |IntToString(mmStart)|] == IntToString(mmStart)
      ensures DecimalValue(r[|Header|..|Header| + |IntToString(mmStart)|]) == mmStart
      ensures r[|Header| + |IntToString(mmStart)|..][..|BeforeLabel + mmBefore|] == BeforeLabel + mmBefore
      ensures r[|r| - |AfterLabel + mmAfter + "}"|..] == AfterLabel + mmAfter + "}"
    {
      DecimalIsInverse(mmStart);
      RenderingSplits(Header, IntToString(mmStart), BeforeLabel + mmBefore, AfterLabel + mmAfter + "}");
      Header + IntToString(mmStart) + (BeforeLabel + mmBefore) + (AfterLabel + mmAfter + "}")
    }
  }

  const Header := "CTEditorHistoryItem{mmStart="
  const BeforeLabel := ", mmBefore="
  const AfterLabel := ", mmAfter="

  /** How a four-part rendering splits back into its parts. */
  lemma RenderingSplits(head: string, digits: string, middle: string, tail: string)
    ensures |head + digits + middle + tail| == |head| + |digits| + |middle| + |tail|
    ensures (head + digits + middle + tail)[..|head|] == head
    ensures (head + digits + middle + tail)[|head|..|head| + |digits|] == digits
    ensures (head + digits + middle + tail)[|head| + |digits|..][..|middle|] == middle
    ensures (head + digits + middle + tail)[|head + digits + middle + tail| - |tail|..] == tail
  {
    var r := head + digits + middle + tail;
    assert r == head + (digits + middle + tail);
    assert r[|head| + |digits|..] == middle + tail;
    assert r == (head + digits + middle) + tail;
  }

  /** The character of a decimal digit. */
  function DigitChar(d: nat): (c: char)
    requires d < 10
    ensures '0' <= c <= '9' && c as int - '0' as int == d
  {
    (d + '0' as int) as char
  }

  /** The decimal digits of `n`, most significant first, without leading zeros. */
  function Digits(n: nat): (r: string)
    ensures |r| >= 1
    ensures forall i :: 0 <= i < |r| ==> '0' <= r[i] <= '9'
    ensures r[0] == '0' <==> n == 0
    ensures n == 0 ==> r == "0"
  {
    if n < 10 then [DigitChar(n)] else Digits(n / 10) + [DigitChar(n % 10)]
  }

  /** Java's decimal rendering of an integer: a minus sign for negatives, then the digits. */
  function IntToString(n: int): (r: string)
    ensures |r| >= 1
    ensures r[0] == '-' <==> n < 0
    ensures var d := if n < 0 then r[1..] else r;
      && |d| >= 1
      && (forall i :: 0 <= i < |d| ==> '0' <= d[i] <= '9')
      && (d[0] == '0' <==> n == 0)
  {
    if n < 0 then "-" + Digits(-n) else Digits(n)
  }

  /** The value of a string of digits, optionally led by a minus sign (a reference reading). */
  function DecimalValue(s: string): int
  {
    if |s| > 0 && s[0] == '-' then -UnsignedValue(s[1..]) else UnsignedValue(s)
  }

  function UnsignedValue(s: string): int
  {
    if s == [] then 0 else 10 * UnsignedValue(s[..|s| - 1]) + (s[|s| - 1] as int - '0' as int)
  }

  lemma {:induction false} DigitsAreExact(n: nat)
    ensures UnsignedValue(Digits(n)) == n
  {
    if n >= 10 {
      DigitsAreExact(n / 10);
      var r := Digits(n);
      assert r[..|r| - 1] == Digits(n / 10);
    }
  }

  /** Reading back the decimal rendering gives the number. */
  lemma DecimalIsInverse(n: int)
    ensures DecimalValue(IntToString(n)) == n
  {
    if n < 0 {
      DigitsAreExact(-n);
      assert IntToString(n)[1..] == Digits(-n);
    } else {
      DigitsAreExact(n);
    }
  }
}
