/**
 * `makeVisible`: how a raw response is rendered before it is exposed. Carriage
 * return, line feed and tab become `\r`, `\n` and `\t`; every other code point
 * from 0x00 to 0x1F becomes `\x` and two upper-case hex digits.
 */
module Escape {

  /** The code points from 0x00 to 0x1F, which the last pass escapes. */
  predicate IsControl(c: char) {
    c < ' '
  }

  predicate NoControl(s: string) {
    forall i :: 0 <= i < |s| ==> !IsControl(s[i])
  }

  predicate IsUpperHexDigit(d: char) {
    '0' <= d <= '9' || 'A' <= d <= 'F'
  }

  /** The value an upper-case hex digit denotes. */
  function HexValue(d: char): int
    requires IsUpperHexDigit(d)
  {
    if d <= '9' then d as int - '0' as int else d as int - 'A' as int + 10
  }

  function HexDigit(n: nat): char
    requires n < 16
  {
    if n < 10 then ('0' as int + n) as char else ('A' as int + n - 10) as char
  }

  /** Two upper-case hex digits, zero-padded, for a value that fits in one byte. */
  function Hex2(n: nat): (r: string)
    requires n < 256
    ensures |r| == 2 && IsUpperHexDigit(r[0]) && IsUpperHexDigit(r[1])
    ensures HexValue(r[0]) * 16 + HexValue(r[1]) == n
  {
    [HexDigit(n / 16), HexDigit(n % 16)]
  }

  // ---------------------------------------------------------------------------
  // The source's definition: four replacement passes, applied in order.
  // ---------------------------------------------------------------------------

  /** Literal replacement of every occurrence of one character by a string. */
  function ReplaceChar(s: string, target: char, replacement: string): string {
    if s == [] then []
    else (if s[0] == target then replacement else [s[0]]) + ReplaceChar(s[1..], target, replacement)
  }

  /** The regular-expression pass: each remaining control character becomes `\x` and its code in two upper-case hex digits. */
  function ReplaceControls(s: string): string {
    if s == [] then []
    else (if IsControl(s[0]) then "\\x" + Hex2(s[0] as int) else [s[0]]) + ReplaceControls(s[1..])
  }

  function MakeVisible(s: string): string {
    ReplaceControls(ReplaceChar(ReplaceChar(ReplaceChar(s, '\r', "\\r"), '\n', "\\n"), '\t', "\\t"))
  }

  // ---------------------------------------------------------------------------
  // The escape table, one character at a time.
  // ---------------------------------------------------------------------------

  predicate IsNamedControl(c: char) {
    c == '\r' || c == '\n' || c == '\t'
  }

  function EscapeChar(c: char): (r: string)
    ensures NoControl(r)
    ensures !IsControl(c) <==> r == [c]
    ensures c == '\r' ==> r == ['\\', 'r']
    ensures c == '\n' ==> r == ['\\', 'n']
    ensures c == '\t' ==> r == ['\\', 't']
    ensures IsControl(c) && !IsNamedControl(c) ==>
      |r| == 4 && r[0] == '\\' && r[1] == 'x' && IsUpperHexDigit(r[2]) && IsUpperHexDigit(r[3])
      && HexValue(r[2]) * 16 + HexValue(r[3]) == c as int
  {
    if c == '\r' then "\\r"
    else if c == '\n' then "\\n"
    else if c == '\t' then "\\t"
    else if IsControl(c) then "\\x" + Hex2(c as int)
    else [c]
  }

  /** The reference definition: every character replaced by its escape, in order. */
  function EscapeAll(s: string): string {
    if s == [] then [] else EscapeChar(s[0]) + EscapeAll(s[1..])
  }

  // ---------------------------------------------------------------------------
  // The four passes agree with the table.
  // ---------------------------------------------------------------------------

  lemma {:induction false} ReplaceCharAppend(a: string, b: string, target: char, replacement: string)
    ensures ReplaceChar(a + b, target, replacement) == ReplaceChar(a, target, replacement) + ReplaceChar(b, target, replacement)
  {
    if a != [] {
      assert (a + b)[1..] == a[1..] + b;
      ReplaceCharAppend(a[1..], b, target, replacement);
    } else {
      assert a + b == b;
    }
  }

  lemma {:induction false} ReplaceControlsAppend(a: string, b: string)
    ensures ReplaceControls(a + b) == ReplaceControls(a) + ReplaceControls(b)
  {
    if a != [] {
      assert (a + b)[1..] == a[1..] + b;
      ReplaceControlsAppend(a[1..], b);
    } else {
      assert a + b == b;
    }
  }

  /** Each pass works character by character, so the whole chain does too. */
  lemma MakeVisibleAppend(a: string, b: string)
    ensures MakeVisible(a + b) == MakeVisible(a) + MakeVisible(b)
  {
    var a1, b1 := ReplaceChar(a, '\r', "\\r"), ReplaceChar(b, '\r', "\\r");
    ReplaceCharAppend(a, b, '\r', "\\r");
    var a2, b2 := ReplaceChar(a1, '\n', "\\n"), ReplaceChar(b1, '\n', "\\n");
    ReplaceCharAppend(a1, b1, '\n', "\\n");
    var a3, b3 := ReplaceChar(a2, '\t', "\\t"), ReplaceChar(b2, '\t', "\\t");
    ReplaceCharAppend(a2, b2, '\t', "\\t");
    ReplaceControlsAppend(a3, b3);
  }

  lemma ReplaceCharSingle(c: char, target: char, replacement: string)
    ensures ReplaceChar([c], target, replacement) == if c == target then replacement else [c]
  {
    assert [c][1..] == [];
  }

  lemma ReplaceControlsSingle(c: char)
    ensures ReplaceControls([c]) == if IsControl(c) then "\\x" + Hex2(c as int) else [c]
  {
    assert [c][1..] == [];
  }

  lemma {:induction false} ReplaceCharAbsent(s: string, target: char, replacement: string)
    requires target !in s
    ensures ReplaceChar(s, target, replacement) == s
  {
    if s != [] {
      assert target !in s[1..] by {
        assert forall x :: x in s[1..] ==> x in s;
      }
      ReplaceCharAbsent(s[1..], target, replacement);
    }
  }

  lemma {:induction false} ReplaceControlsAbsent(s: string)
    requires NoControl(s)
    ensures ReplaceControls(s) == s
  {
    if s != [] {
      assert NoControl(s[1..]) by {
        assert forall i :: 0 <= i < |s[1..]| ==> s[1..][i] == s[i + 1];
      }
      ReplaceControlsAbsent(s[1..]);
    }
  }

  /** The escapes written by the first three passes are left alone by the later ones. */
  lemma MakeVisibleChar(c: char)
    ensures MakeVisible([c]) == EscapeChar(c)
  {
    var s1 := ReplaceChar([c], '\r', "\\r");
    ReplaceCharSingle(c, '\r', "\\r");
    var s2 := ReplaceChar(s1, '\n', "\\n");
    if c == '\r' {
      ReplaceCharAbsent(s1, '\n', "\\n");
    } else {
      ReplaceCharSingle(c, '\n', "\\n");
    }
    var s3 := ReplaceChar(s2, '\t', "\\t");
    if c == '\r' || c == '\n' {
      ReplaceCharAbsent(s2, '\t', "\\t");
    } else {
      ReplaceCharSingle(c, '\t', "\\t");
    }
    if IsNamedControl(c) {
      ReplaceControlsAbsent(s3);
    } else {
      assert s3 == [c];
      ReplaceControlsSingle(c);
    }
  }

  /** The source's chain of replacements is exactly the escape table applied in order. */
  lemma {:induction false} MakeVisibleIsEscapeAll(s: string)
    ensures MakeVisible(s) == EscapeAll(s)
  {
    if s != [] {
      assert s == [s[0]] + s[1..];
      MakeVisibleAppend([s[0]], s[1..]);
      MakeVisibleChar(s[0]);
      MakeVisibleIsEscapeAll(s[1..]);
    }
  }

  // ---------------------------------------------------------------------------
  // What the rendering promises.
  // ---------------------------------------------------------------------------

  lemma {:induction false} EscapeAllNoControl(s: string)
    ensures NoControl(EscapeAll(s))
  {
    if s != [] {
      EscapeAllNoControl(s[1..]);
      var h, t := EscapeChar(s[0]), EscapeAll(s[1..]);
      assert forall i :: 0 <= i < |h + t| ==> (h + t)[i] == if i < |h| then h[i] else t[i - |h|];
    }
  }

  /** The table never shortens the text, and keeps its length only when nothing needed escaping. */
  lemma {:induction false} EscapeAllLength(s: string)
    ensures |EscapeAll(s)| >= |s|
    ensures |EscapeAll(s)| == |s| ==> NoControl(s)
  {
    if s != [] {
      EscapeAllLength(s[1..]);
      if |EscapeAll(s)| == |s| {
        assert |EscapeChar(s[0])| == 1;
        assert forall i :: 1 <= i < |s| ==> s[i] == s[1..][i - 1];
      }
    }
  }

  lemma {:induction false} EscapeAllOfPrintable(s: string)
    requires NoControl(s)
    ensures EscapeAll(s) == s
  {
    if s != [] {
      assert NoControl(s[1..]) by {
        assert forall i :: 0 <= i < |s[1..]| ==> s[1..][i] == s[i + 1];
      }
      EscapeAllOfPrintable(s[1..]);
    }
  }

  /** The rendered text contains no code point from 0x00 to 0x1F. */
  lemma MakeVisibleNoControl(s: string)
    ensures NoControl(MakeVisible(s))
  {
    MakeVisibleIsEscapeAll(s);
    EscapeAllNoControl(s);
  }

  /** Rendering leaves a text unchanged exactly when it has no control characters. */
  lemma MakeVisibleIdentity(s: string)
    ensures MakeVisible(s) == s <==> NoControl(s)
  {
    MakeVisibleIsEscapeAll(s);
    EscapeAllLength(s);
    if NoControl(s) {
      EscapeAllOfPrintable(s);
    }
  }

  lemma MakeVisibleIdempotent(s: string)
    ensures MakeVisible(MakeVisible(s)) == MakeVisible(s)
  {
    MakeVisibleNoControl(s);
    MakeVisibleIdentity(MakeVisible(s));
  }

  /** Backslashes are not escaped, so a carriage return and the text `\r` render alike. */
  lemma MakeVisibleNotInjective()
    ensures ['\r'] != ['\\', 'r'] && MakeVisible(['\r']) == MakeVisible(['\\', 'r'])
  {
    MakeVisibleChar('\r');
    MakeVisibleIdentity(['\\', 'r']);
  }

  /** How an ELM327 adapter ends every reply: two carriage returns and the `>` prompt. */
  const Prompt: string := ['\r', '\r', '>']

  /** The prompt as it is shown once rendered: each carriage return written as `\r`. */
  const ShownPrompt: string := ['\\', 'r', '\\', 'r', '>']

  /** The prompt renders with both carriage returns escaped. */
  lemma MakeVisiblePrompt()
    ensures MakeVisible(Prompt) == ShownPrompt
  {
    MakeVisibleIsEscapeAll(Prompt);
    assert Prompt[1..][1..][1..] == [];
  }

  /** A printable reply followed by the prompt. */
  lemma MakeVisibleReply(text: string)
    requires NoControl(text)
    ensures MakeVisible(text + Prompt) == text + ShownPrompt
  {
    MakeVisiblePrompt();
    MakeVisibleIdentity(text);
    MakeVisibleAppend(text, Prompt);
  }

  /** The reply an adapter gives to the OBD-II request `0100`: `41 00 BE 3B B0 11`, then the prompt. */
  const SampleText := "41 00 BE 3B B0 11"
  const SampleReply := SampleText + Prompt

  lemma MakeVisibleExample()
    ensures MakeVisible(SampleReply) == SampleText + ShownPrompt
  {
    assert NoControl(SampleText);
    MakeVisibleReply(SampleText);
  }
}
