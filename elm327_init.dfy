/**
 * The ELM327 initialisation handshake: five AT commands sent in a fixed order,
 * each answered by the adapter and checked by its own validator, stopping at the
 * first step that gets no answer or a wrong one.
 */
module Elm327Init {
  import opened Wrappers
  import opened Ascii
  import opened Escape

  /** The two validators the handshake uses. */
  datatype Check =
    | IdentityAndPrompt  // the answer names the chip ("ELM327") and contains the prompt (">")
    | Acknowledged       // the answer contains "OK"

  datatype InitStep = InitStep(command: string, check: Check)

  const InitSteps: seq<InitStep> := [
    InitStep("ATZ", IdentityAndPrompt),  // reset
    InitStep("ATE0", Acknowledged),      // echo off
    InitStep("ATL0", Acknowledged),      // line feeds off
    InitStep("ATS0", Acknowledged),      // spaces off
    InitStep("ATSP0", Acknowledged)      // protocol: automatic
  ]

  /** The commands of the first `n` steps, in order. */
  function CommandsUpTo(n: nat): (cs: seq<string>)
    requires n <= |InitSteps|
    ensures |cs| == n && forall i :: 0 <= i < n ==> cs[i] == InitSteps[i].command
  {
    if n == 0 then [] else CommandsUpTo(n - 1) + [InitSteps[n - 1].command]
  }

  /** Kotlin's `String.contains`: `sub` occurs somewhere in `s`. */
  predicate Contains(s: string, sub: string)
    decreases |s|
  {
    |sub| <= |s| && (s[..|sub|] == sub || Contains(s[1..], sub))
  }

  predicate OccursAt(s: string, sub: string, i: nat) {
    i + |sub| <= |s| && s[i..i + |sub|] == sub
  }

  lemma SliceOfTail(s: string, a: nat, b: nat)
    requires 1 <= a <= b <= |s|
    ensures s[1..][a - 1..b - 1] == s[a..b]
  {
    var t, u := s[1..][a - 1..b - 1], s[a..b];
    assert |t| == |u|;
    assert forall k :: 0 <= k < |t| ==> t[k] == u[k];
  }

  lemma {:induction false} ContainsIffOccurs(s: string, sub: string)
    ensures Contains(s, sub) <==> exists i: nat :: OccursAt(s, sub, i)
    decreases |s|
  {
    if |sub| <= |s| && s[..|sub|] != sub {
      ContainsIffOccurs(s[1..], sub);
      if Contains(s[1..], sub) {
        var i: nat :| OccursAt(s[1..], sub, i);
        SliceOfTail(s, i + 1, i + 1 + |sub|);
        assert OccursAt(s, sub, i + 1);
      }
      if exists i: nat :: OccursAt(s, sub, i) {
        var i: nat :| OccursAt(s, sub, i);
        assert i != 0;
        SliceOfTail(s, i, i + |sub|);
        assert OccursAt(s[1..], sub, i - 1);
      }
    } else if |sub| <= |s| {
      assert OccursAt(s, sub, 0);
    }
  }

  predicate Accepts(check: Check, response: string) {
    match check
    case IdentityAndPrompt => Contains(response, "ELM327") && Contains(response, ">")
    case Acknowledged => Contains(response, "OK")
  }

  // ---------------------------------------------------------------------------
  // A run of the handshake against the bytes the adapter makes available.
  // `inbound[i]` is what the port holds when step `i` reads; a step beyond the
  // end of `inbound`, or an empty entry, finds no bytes.
  // ---------------------------------------------------------------------------

  function Available(inbound: seq<seq<byte>>, i: nat): seq<byte> {
    if i < |inbound| then inbound[i] else []
  }

  /** The validator of step `i` accepts what `readResponse` makes of `bytes`. */
  predicate Accepted(i: nat, bytes: seq<byte>)
    requires i < |InitSteps|
  {
    |bytes| > 0 && Accepts(InitSteps[i].check, MakeVisible(Decode(bytes)))
  }

  /** Step `i` got an answer and its validator accepts it. */
  predicate Passes(inbound: seq<seq<byte>>, i: nat)
    requires i < |InitSteps|
  {
    Accepted(i, Available(inbound, i))
  }

  /** Whether the handshake succeeded, and the commands it wrote, in order. */
  datatype Outcome = Outcome(ok: bool, sent: seq<string>)

  /** The first step at or after `i` that does not pass, or `|InitSteps|` when none fails. */
  function FirstFailure(inbound: seq<seq<byte>>, i: nat): (f: nat)
    requires i <= |InitSteps|
    ensures i <= f <= |InitSteps|
    ensures forall j :: i <= j < f ==> Passes(inbound, j)
    ensures f < |InitSteps| ==> !Passes(inbound, f)
    decreases |InitSteps| - i
  {
    if i == |InitSteps| then i
    else if !Passes(inbound, i) then i
    else FirstFailure(inbound, i + 1)
  }

  /**
   * The whole handshake: the commands are written in the fixed order, the run
   * stops at the first step without an accepted answer, whose command is the
   * last one written, and it succeeds only when all five steps pass.
   */
  function Handshake(inbound: seq<seq<byte>>): (r: Outcome)
    ensures 1 <= |r.sent| <= |InitSteps| && r.sent == CommandsUpTo(|r.sent|)
    ensures r.ok <==> forall j :: 0 <= j < |InitSteps| ==> Passes(inbound, j)
    ensures r.ok ==> |r.sent| == |InitSteps|
    ensures !r.ok ==> !Passes(inbound, |r.sent| - 1)
    ensures forall j :: 0 <= j < |r.sent| - 1 ==> Passes(inbound, j)
  {
    var f := FirstFailure(inbound, 0);
    if f == |InitSteps| then Outcome(true, CommandsUpTo(f)) else Outcome(false, CommandsUpTo(f + 1))
  }

  /** A run that passed steps `0..k-1` and failed step `k` wrote `k + 1` commands and failed. */
  lemma HandshakeStopsAt(inbound: seq<seq<byte>>, k: nat)
    requires k < |InitSteps|
    requires forall j :: 0 <= j < k ==> Passes(inbound, j)
    requires !Passes(inbound, k)
    ensures Handshake(inbound) == Outcome(false, CommandsUpTo(k + 1))
  {
  }

  /** A run whose first failure from step 0 is the same as from step `i`, and which fails step `i`, ends there. */
  lemma HandshakeFailsAt(inbound: seq<seq<byte>>, i: nat)
    requires i < |InitSteps|
    requires FirstFailure(inbound, 0) == FirstFailure(inbound, i)
    requires !Passes(inbound, i)
    ensures Handshake(inbound) == Outcome(false, CommandsUpTo(i + 1))
  {
    assert FirstFailure(inbound, i) == i;
  }

  /** A run that passed all five steps wrote all five commands and succeeded. */
  lemma HandshakeAllPass(inbound: seq<seq<byte>>)
    requires forall j :: 0 <= j < |InitSteps| ==> Passes(inbound, j)
    ensures Handshake(inbound) == Outcome(true, CommandsUpTo(|InitSteps|))
  {
  }

  lemma {:induction false} FirstFailureIgnoresLaterReplies(a: seq<seq<byte>>, b: seq<seq<byte>>, i: nat)
    requires i <= |InitSteps|
    requires forall j :: i <= j <= FirstFailure(a, i) && j < |InitSteps| ==> Available(a, j) == Available(b, j)
    ensures FirstFailure(b, i) == FirstFailure(a, i)
    decreases |InitSteps| - i
  {
    if i < |InitSteps| {
      assert Available(a, i) == Available(b, i);
      if Passes(a, i) {
        FirstFailureIgnoresLaterReplies(a, b, i + 1);
      }
    }
  }

  /**
   * Fail-fast: what the adapter would have answered to steps that were never
   * run does not matter.
   */
  lemma HandshakeIgnoresLaterReplies(a: seq<seq<byte>>, b: seq<seq<byte>>)
    requires forall j :: 0 <= j < |Handshake(a).sent| ==> Available(a, j) == Available(b, j)
    ensures Handshake(b) == Handshake(a)
  {
    FirstFailureIgnoresLaterReplies(a, b, 0);
  }

  // ---------------------------------------------------------------------------
  // Sample adapters.
  // ---------------------------------------------------------------------------

  const IdentityText := "ELM327 v1.5"
  const OkText := "OK"
  const UnknownText := "?"

  /** The bytes an adapter sends for a printable `text` followed by the prompt. */
  function ReplyBytes(text: string): seq<byte> {
    Encode(text + Prompt)
  }

  lemma {:induction false} ContainsAppend(a: string, b: string, sub: string)
    requires Contains(a, sub)
    ensures Contains(a + b, sub)
  {
    ContainsIffOccurs(a, sub);
    var i: nat :| OccursAt(a, sub, i);
    assert (a + b)[i..i + |sub|] == a[i..i + |sub|];
    assert OccursAt(a + b, sub, i);
    ContainsIffOccurs(a + b, sub);
  }

  lemma {:induction false} MissingFirstCharNotContained(s: string, sub: string)
    requires |sub| > 0 && sub[0] !in s
    ensures !Contains(s, sub)
    decreases |s|
  {
    if |sub| <= |s| {
      assert s[..|sub|][0] == s[0];
      assert sub[0] !in s[1..] by {
        assert forall x :: x in s[1..] ==> x in s;
      }
      MissingFirstCharNotContained(s[1..], sub);
    }
  }

  /** What `readResponse` makes of such a reply: the text, then the escaped prompt. */
  lemma ReplyResponse(text: string)
    requires IsAsciiText(text) && NoControl(text)
    ensures MakeVisible(Decode(ReplyBytes(text))) == text + ShownPrompt
  {
    assert IsAsciiText(text + Prompt);
    DecodeEncode(text + Prompt);
    MakeVisibleReply(text);
  }

  lemma ReplyAccepted(text: string, check: Check)
    requires IsAsciiText(text) && NoControl(text)
    requires check == IdentityAndPrompt ==> Contains(text, "ELM327")
    requires check == Acknowledged ==> Contains(text, "OK")
    ensures Accepts(check, MakeVisible(Decode(ReplyBytes(text))))
  {
    ReplyResponse(text);
    var tail := ShownPrompt;
    if check == IdentityAndPrompt {
      ContainsAppend(text, tail, "ELM327");
      assert OccursAt(text + tail, ">", |text| + 4);
      ContainsIffOccurs(text + tail, ">");
    } else {
      ContainsAppend(text, tail, "OK");
    }
  }

  /** The reset command accepts an identification followed by the prompt. */
  lemma IdentityReplyAccepted()
    ensures Accepted(0, ReplyBytes(IdentityText))
  {
    assert OccursAt(IdentityText, "ELM327", 0);
    ContainsIffOccurs(IdentityText, "ELM327");
    ReplyAccepted(IdentityText, IdentityAndPrompt);
  }

  /** Each setting command accepts `OK` followed by the prompt. */
  lemma OkReplyAccepted(i: nat)
    requires 1 <= i < |InitSteps|
    ensures Accepted(i, ReplyBytes(OkText))
  {
    assert OccursAt(OkText, "OK", 0);
    ContainsIffOccurs(OkText, "OK");
    ReplyAccepted(OkText, Acknowledged);
  }

  /** Each setting command rejects `?` followed by the prompt. */
  lemma UnknownReplyRejected(i: nat)
    requires 1 <= i < |InitSteps|
    ensures !Accepted(i, ReplyBytes(UnknownText))
  {
    ReplyResponse(UnknownText);
    var shown := MakeVisible(Decode(ReplyBytes(UnknownText)));
    assert 'O' !in shown;
    MissingFirstCharNotContained(shown, "OK");
  }

  /** An adapter that identifies itself and acknowledges the four settings. */
  const WellBehaved: seq<seq<byte>> := [
    ReplyBytes(IdentityText), ReplyBytes(OkText), ReplyBytes(OkText), ReplyBytes(OkText), ReplyBytes(OkText)
  ]

  lemma WellBehavedSucceeds()
    ensures Handshake(WellBehaved) == Outcome(true, ["ATZ", "ATE0", "ATL0", "ATS0", "ATSP0"])
  {
    forall j | 0 <= j < |InitSteps| ensures Passes(WellBehaved, j) {
      if j == 0 {
        IdentityReplyAccepted();
      } else {
        OkReplyAccepted(j);
      }
    }
    HandshakeAllPass(WellBehaved);
  }

  /**
   * An adapter that answers the echo-off command with `?`: the run stops there,
   * whatever the adapter would have answered to the later commands.
   */
  lemma RejectedEchoOffFails(later: seq<seq<byte>>)
    ensures Handshake([ReplyBytes(IdentityText), ReplyBytes(UnknownText)] + later)
         == Outcome(false, ["ATZ", "ATE0"])
  {
    var inbound := [ReplyBytes(IdentityText), ReplyBytes(UnknownText)];
    IdentityReplyAccepted();
    assert Passes(inbound, 0) by {
      assert Available(inbound, 0) == ReplyBytes(IdentityText);
    }
    UnknownReplyRejected(1);
    assert !Passes(inbound, 1) by {
      assert Available(inbound, 1) == ReplyBytes(UnknownText);
    }
    HandshakeStopsAt(inbound, 1);
    var full := inbound + later;
    assert forall j :: 0 <= j < 2 ==> Available(inbound, j) == Available(full, j);
    HandshakeIgnoresLaterReplies(inbound, full);
  }

  /** An adapter that stays silent: only the reset command is written. */
  lemma SilentAdapterFails()
    ensures Handshake([]) == Outcome(false, ["ATZ"])
  {
    HandshakeStopsAt([], 0);
  }
}
