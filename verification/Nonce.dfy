/**
 * The 16-bit anti-replay window (main/protocol.c:81-100): serial-number comparison in the sense
 * of section 3.2 of RFC 1982.
 */
module Nonce {
  import opened Bytes

  /** `(int16_t)x`. */
  function Int16(x: int): int {
    var m := x % 0x1_0000;
    if m >= 0x8000 then m - 0x1_0000 else m
  }

  /** `nonce` is later than `last` on the circle. */
  predicate Newer(last: u16, nonce: u16) {
    Int16(nonce - last) > 0
  }

  class NonceCtx {
    var lastNonce: u16

    constructor ()
      ensures lastNonce == 0
    {
      lastNonce := 0;
    }

    method CheckAndUpdate(nonce: u16) returns (ok: bool)
      modifies this
      ensures ok == Newer(old(lastNonce), nonce)
      ensures lastNonce == if ok then nonce else old(lastNonce)
    {
      var delta := Int16(nonce - lastNonce);
      if delta <= 0 {
        return false;
      }
      lastNonce := nonce;
      ok := true;
    }
  }

  /** The comparison orders any two nonces except equal ones and those half the circle apart. */
  lemma NewerIsPartialOrder(a: u16, b: u16)
    ensures !(Newer(a, b) && Newer(b, a))
    ensures !Newer(a, b) && !Newer(b, a) <==> a == b || (a - b) % 0x1_0000 == 0x8000
  {
  }

  // ----- Whole runs -----

  function After(last: u16, nonce: u16): u16 {
    if Newer(last, nonce) then nonce else last
  }

  /** The window after a run of received nonces. */
  function Last(last: u16, nonces: seq<u16>): u16
    decreases |nonces|
  {
    if |nonces| == 0 then last else Last(After(last, nonces[0]), nonces[1..])
  }

  function Verdicts(last: u16, nonces: seq<u16>): (v: seq<bool>)
    ensures |v| == |nonces|
    decreases |nonces|
  {
    if |nonces| == 0 then [] else [Newer(last, nonces[0])] + Verdicts(After(last, nonces[0]), nonces[1..])
  }

  function Accepted(v: seq<bool>): nat {
    if |v| == 0 then 0 else (if v[0] then 1 else 0) + Accepted(v[1..])
  }

  /** How far one received nonce moves the window. */
  function Move(last: u16, nonce: u16): nat {
    if Newer(last, nonce) then Int16(nonce - last) else 0
  }

  /** How far the window moves in a run, without wrapping. */
  function Advance(last: u16, nonces: seq<u16>): nat
    decreases |nonces|
  {
    if |nonces| == 0 then 0 else Move(last, nonces[0]) + Advance(After(last, nonces[0]), nonces[1..])
  }

  lemma OneMove(last: u16, nonce: u16)
    ensures After(last, nonce) == (last + Move(last, nonce)) % 0x1_0000
    ensures if Newer(last, nonce) then 1 <= Move(last, nonce) <= 32767 else Move(last, nonce) == 0
  {
  }

  lemma AddModulo(a: int, b: int, c: int)
    ensures ((a + b) % 0x1_0000 + c) % 0x1_0000 == (a + (b + c)) % 0x1_0000
  {
    var k, m := (a + b) / 0x1_0000, (a + b) % 0x1_0000;
    assert a + (b + c) == 0x1_0000 * k + (m + c);
  }

  /** Accepted nonces unwrapped: each acceptance moves the window by 1 to 32767. */
  lemma {:induction false} AdvanceBounds(last: u16, nonces: seq<u16>)
    ensures Accepted(Verdicts(last, nonces)) <= Advance(last, nonces)
    ensures Advance(last, nonces) <= 32767 * Accepted(Verdicts(last, nonces))
    decreases |nonces|
  {
    hide Newer, Move, After;
    if |nonces| > 0 {
      OneMove(last, nonces[0]);
      AdvanceBounds(After(last, nonces[0]), nonces[1..]);
      assert Verdicts(last, nonces)[1..] == Verdicts(After(last, nonces[0]), nonces[1..]);
    }
  }

  /** The window is its start plus the total advance, modulo 2^16. */
  lemma {:induction false} Unwrapped(last: u16, nonces: seq<u16>)
    ensures Last(last, nonces) == (last + Advance(last, nonces)) % 0x1_0000
    decreases |nonces|
  {
    hide Newer, Move, After;
    if |nonces| > 0 {
      var next := After(last, nonces[0]);
      OneMove(last, nonces[0]);
      Unwrapped(next, nonces[1..]);
      AddModulo(last, Move(last, nonces[0]), Advance(next, nonces[1..]));
    }
  }

  lemma WindowDistance(v: u16, a: nat, now: u16)
    requires now == (v + a) % 0x1_0000
    ensures Newer(now, v) <==> a % 0x1_0000 > 32768
  {
    var k := (v + a) / 0x1_0000;
    var m := a % 0x1_0000;
    var j := a / 0x1_0000;
    assert v - now == 0x1_0000 * (k - j) - m;
    assert (v - now) % 0x1_0000 == (-m) % 0x1_0000;
  }

  /**
   * Replay: an accepted nonce presented again after a run is accepted exactly when the window has
   * moved more than 32768 beyond it, modulo 2^16; up to 32768 it is rejected.
   */
  lemma ReplayVerdict(accepted: u16, nonces: seq<u16>)
    ensures Newer(Last(accepted, nonces), accepted) <==> Advance(accepted, nonces) % 0x1_0000 > 32768
    ensures Advance(accepted, nonces) <= 32768 ==> !Newer(Last(accepted, nonces), accepted)
  {
    Unwrapped(accepted, nonces);
    WindowDistance(accepted, Advance(accepted, nonces), Last(accepted, nonces));
  }

  /** Two acceptances of one value have at least two other acceptances between them. */
  lemma SameNonceThreeApart(accepted: u16, nonces: seq<u16>)
    requires Newer(Last(accepted, nonces), accepted)
    ensures Accepted(Verdicts(accepted, nonces)) >= 2
  {
    AdvanceBounds(accepted, nonces);
    ReplayVerdict(accepted, nonces);
  }

  // ----- An in-order sender over a lossy line -----

  function Wire(sent: seq<nat>): seq<u16> {
    seq(|sent|, i requires 0 <= i < |sent| => sent[i] % 0x1_0000)
  }

  lemma NewerOfCounters(a: nat, b: nat)
    ensures Newer(a % 0x1_0000, b % 0x1_0000) <==> 1 <= (b - a) % 0x1_0000 <= 32767
  {
    var i, j := a / 0x1_0000, b / 0x1_0000;
    assert b - a == 0x1_0000 * (j - i) + (b % 0x1_0000 - a % 0x1_0000);
    assert (b - a) % 0x1_0000 == (b % 0x1_0000 - a % 0x1_0000) % 0x1_0000;
  }

  /** Each counter value is 1 to 32767 ahead of the one delivered before it, modulo 2^16. */
  predicate GapsFit(from: nat, sent: seq<nat>)
    decreases |sent|
  {
    |sent| == 0 || (1 <= (sent[0] - from) % 0x1_0000 <= 32767 && GapsFit(sent[0], sent[1..]))
  }

  /**
   * The frames delivered from a sender that counts from `from` are all accepted exactly when the
   * gaps fit: losing up to 32766 frames in a row is harmless, whatever the number of wraparounds.
   */
  lemma {:induction false} LossySender(from: nat, sent: seq<nat>)
    ensures Accepted(Verdicts(from % 0x1_0000, Wire(sent))) == |sent| <==> GapsFit(from, sent)
    decreases |sent|
  {
    hide Newer;
    if |sent| > 0 {
      var now, next := from % 0x1_0000, sent[0] % 0x1_0000;
      var rest := Verdicts(After(now, next), Wire(sent[1..]));
      NewerOfCounters(from, sent[0]);
      assert Wire(sent)[1..] == Wire(sent[1..]);
      assert Verdicts(now, Wire(sent))[1..] == rest;
      AtMostAll(rest);
      LossySender(sent[0], sent[1..]);
    }
  }

  lemma {:induction false} AtMostAll(v: seq<bool>)
    ensures Accepted(v) <= |v|
  {
    if |v| > 0 {
      AtMostAll(v[1..]);
    }
  }
}
