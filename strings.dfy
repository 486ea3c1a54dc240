/**
 * The parts of .NET's string handling that the rules rely on: `char.IsWhiteSpace`,
 * `string.IsNullOrEmpty`, `string.IsNullOrWhiteSpace`, ordinal ignore-case equality,
 * and `StringBuilder.AppendLine`.
 */
module Strings {
  import opened Wrappers

  /** `char.IsWhiteSpace`: the Unicode White_Space characters. */
  predicate IsWhiteSpace(c: char) {
    var n := c as int;
    || 0x09 <= n <= 0x0D
    || n == 0x20
    || n == 0x85
    || n == 0xA0
    || n == 0x1680
    || 0x2000 <= n <= 0x200A
    || n == 0x2028
    || n == 0x2029
    || n == 0x202F
    || n == 0x205F
    || n == 0x3000
  }

  /** True when every character of `s` is white space. */
  predicate AllWhiteSpace(s: string)
    ensures AllWhiteSpace(s) <==> forall i :: 0 <= i < |s| ==> IsWhiteSpace(s[i])
  {
    if s == [] then true else IsWhiteSpace(s[0]) && AllWhiteSpace(s[1..])
  }

  /** `string.IsNullOrEmpty`. */
  predicate IsNullOrEmpty(s: Option<string>) {
    s.None? || s.value == ""
  }

  /** `string.IsNullOrWhiteSpace`: null, empty, or white space only. */
  predicate IsNullOrWhiteSpace(s: Option<string>)
    ensures IsNullOrEmpty(s) ==> IsNullOrWhiteSpace(s)
  {
    s.None? || AllWhiteSpace(s.value)
  }

  /** Upper-cases an ASCII letter and leaves every other character alone. */
  function ToUpperAscii(c: char): (u: char)
    ensures 'a' <= c <= 'z' ==> u as int == c as int - 32
    ensures !('a' <= c <= 'z') ==> u == c
  {
    if 'a' <= c <= 'z' then (c as int - 32) as char else c
  }

  /**
   * `string.Equals(a, b, StringComparison.OrdinalIgnoreCase)`: equal lengths and
   * equal characters after case folding.
   */
  predicate EqualsOrdinalIgnoreCase(a: string, b: string) {
    |a| == |b| && forall i :: 0 <= i < |a| ==> ToUpperAscii(a[i]) == ToUpperAscii(b[i])
  }

  /** The text with every ASCII letter upper-cased and every other character kept. */
  function UpperAscii(s: string): (u: string)
    ensures |u| == |s|
    ensures forall i :: 0 <= i < |s| ==> u[i] == ToUpperAscii(s[i])
  {
    if s == [] then [] else [ToUpperAscii(s[0])] + UpperAscii(s[1..])
  }

  /** The ordinal case-insensitive comparison is equality of the upper-cased texts. */
  lemma EqualsOrdinalIgnoreCaseIff(a: string, b: string)
    ensures EqualsOrdinalIgnoreCase(a, b) <==> UpperAscii(a) == UpperAscii(b)
  {
    var ua, ub := UpperAscii(a), UpperAscii(b);
    if ua == ub {
      forall i | 0 <= i < |a| ensures ToUpperAscii(a[i]) == ToUpperAscii(b[i]) {
        assert ua[i] == ub[i];
      }
    }
  }

  /** `needle` stands in `text` at position `i`. */
  predicate OccursAt(needle: string, text: string, i: nat) {
    i + |needle| <= |text| && text[i..i + |needle|] == needle
  }

  /** `System.Text.StringBuilder`, used only through `AppendLine` and `ToString`. */
  class StringBuilder {
    var content: string
    /** `Environment.NewLine`, which `AppendLine` appends. */
    const newLine: string

    constructor (newLine: string)
      ensures content == "" && this.newLine == newLine
    {
      content := "";
      this.newLine := newLine;
    }

    /** Appends `line` and then the line terminator. */
    method AppendLine(line: string)
      modifies this
      ensures content == old(content) + line + newLine
    {
      content := content + line + newLine;
    }

    function ToString(): string
      reads this
    {
      content
    }
  }
}
