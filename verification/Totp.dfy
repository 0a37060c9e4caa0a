/**
 TOTP verification with replay protection: a request reads the settings row, looks
 for a matching time step, and then advances the row by compare-and-set.
 */
module Totp {
  import opened Common

  const TOTP_PERIOD_SECONDS := 30
  const TOTP_DIGITS := 6
  const WINDOW := 1

  /** `pyotp` is not modelled: any code for a secret and a time step. */
  type Generator = (string, int) -> string

  function TimeStep(epochSeconds: int): int {
    epochSeconds / TOTP_PERIOD_SECONDS
  }

  function NormalizeCode(code: string): string {
    if code == [] then []
    else (if '0' <= code[0] <= '9' then [code[0]] else []) + NormalizeCode(code[1..])
  }

  predicate Acceptable(gen: Generator, secret: string, digits: string, last: Option<int>, step: int) {
    (last.None? || step > last.value) && gen(secret, step) == digits
  }

  /** The search over `range(step, upto)`: the first acceptable step, if any. */
  function FirstMatch(gen: Generator, secret: string, digits: string, last: Option<int>, step: int,
                      upto: int): (r: Option<int>)
    ensures r.Some? ==>
              && step <= r.value < upto
              && Acceptable(gen, secret, digits, last, r.value)
              && forall k :: step <= k < r.value ==> !Acceptable(gen, secret, digits, last, k)
    ensures r.None? ==> forall k :: step <= k < upto ==> !Acceptable(gen, secret, digits, last, k)
    decreases upto - step
  {
    if step >= upto then None
    else if last.Some? && step <= last.value then FirstMatch(gen, secret, digits, last, step + 1, upto)
    else if gen(secret, step) == digits then Some(step)
    else FirstMatch(gen, secret, digits, last, step + 1, upto)
  }

  /** `verify_totp_code`: a step within the window, newer than the last verified one,
      exactly when there is one; the earliest if there are several. */
  function VerifyTotpCode(gen: Generator, secret: string, code: string, window: nat, now: int,
                          last: Option<int>): (r: Option<int>)
    ensures r.Some? <==>
              |NormalizeCode(code)| == TOTP_DIGITS
              && exists k :: TimeStep(now) - window <= k <= TimeStep(now) + window
                             && Acceptable(gen, secret, NormalizeCode(code), last, k)
    ensures r.Some? ==>
              && TimeStep(now) - window <= r.value <= TimeStep(now) + window
              && Acceptable(gen, secret, NormalizeCode(code), last, r.value)
              && forall k :: TimeStep(now) - window <= k < r.value ==>
                   !Acceptable(gen, secret, NormalizeCode(code), last, k)
  {
    var digits := NormalizeCode(code);
    if |digits| != TOTP_DIGITS then None
    else FirstMatch(gen, secret, digits, last, TimeStep(now) - window, TimeStep(now) + window + 1)
  }

  // ---------------------------------------------------------------------------
  // Which codes are right
  // ---------------------------------------------------------------------------

  predicate IsDigit(c: char) {
    '0' <= c <= '9'
  }

  /** The code, digit by digit, with anything that is no digit anywhere between. */
  predicate Writes(text: string, code: string) {
    if text == [] then code == []
    else if IsDigit(text[0]) then code != [] && code[0] == text[0] && Writes(text[1..], code[1..])
    else Writes(text[1..], code)
  }

  lemma {:induction false} NormalizedExactly(text: string, code: string)
    ensures NormalizeCode(text) == code <==> Writes(text, code)
  {
    if text != [] {
      NormalizedExactly(text[1..], code);
      if code != [] {
        NormalizedExactly(text[1..], code[1..]);
        assert code == [code[0]] + code[1..];
      }
      if IsDigit(text[0]) {
        assert ([text[0]] + NormalizeCode(text[1..]))[1..] == NormalizeCode(text[1..]);
      }
    }
  }

  /** Digits write themselves, so the plain code is one way to write it. */
  lemma {:induction false} DigitsWriteThemselves(code: string)
    requires forall i :: 0 <= i < |code| ==> IsDigit(code[i])
    ensures Writes(code, code)
  {
    if code != [] {
      DigitsWriteThemselves(code[1..]);
    }
  }

  /** Spaces, hyphens and the like may stand anywhere. */
  lemma {:induction false} SeparatorsAreFree(front: string, separators: string, back: string, code: string)
    requires forall i :: 0 <= i < |separators| ==> !IsDigit(separators[i])
    ensures Writes(front + separators + back, code) <==> Writes(front + back, code)
  {
    if front != [] {
      assert (front + separators + back)[1..] == front[1..] + separators + back
             && (front + back)[1..] == front[1..] + back;
      SeparatorsAreFree(front[1..], separators, back, code);
      if code != [] {
        SeparatorsAreFree(front[1..], separators, back, code[1..]);
      }
    } else if separators != [] {
      assert (front + separators + back)[1..] == front + separators[1..] + back;
      SeparatorsAreFree(front, separators[1..], back, code);
    } else {
      assert front + separators + back == front + back;
    }
  }

  /** The step lasts 30 seconds; it is accepted from 30 seconds before to 30 after. */
  predicate InTime(step: int, now: int) {
    30 * step - 30 <= now < 30 * step + 60
  }

  /** The text is right: it writes the six digits generated for some step in time that is
      newer than the last accepted one. */
  ghost predicate IsRight(gen: Generator, secret: string, text: string, now: int, last: Option<int>) {
    exists k :: InTime(k, now) && (last.None? || k > last.value) && |gen(secret, k)| == 6
      && Writes(text, gen(secret, k))
  }

  lemma {:induction false} RightExactly(gen: Generator, secret: string, text: string, now: int, last: Option<int>)
    ensures VerifyTotpCode(gen, secret, text, WINDOW, now, last).Some? <==> IsRight(gen, secret, text, now, last)
    ensures var r := VerifyTotpCode(gen, secret, text, WINDOW, now, last);
            r.Some? ==> InTime(r.value, now) && Writes(text, gen(secret, r.value)) && |gen(secret, r.value)| == 6
  {
    var digits, r := NormalizeCode(text), VerifyTotpCode(gen, secret, text, WINDOW, now, last);
    assert forall k :: TimeStep(now) - WINDOW <= k <= TimeStep(now) + WINDOW <==> InTime(k, now);
    if r.Some? {
      NormalizedExactly(text, gen(secret, r.value));
    }
    if IsRight(gen, secret, text, now, last) {
      var k :| InTime(k, now) && (last.None? || k > last.value) && |gen(secret, k)| == 6
        && Writes(text, gen(secret, k));
      NormalizedExactly(text, gen(secret, k));
      assert Acceptable(gen, secret, digits, last, k);
    }
  }

  // ---------------------------------------------------------------------------
  // The settings row
  // ---------------------------------------------------------------------------

  datatype Row = Row(secret: Option<string>, lastVerifiedStep: Option<int>, requiredOnLogin: bool)

  /** The `WHERE` clause of the compare-and-set. */
  predicate CanAdvance(row: Row, step: int) {
    row.lastVerifiedStep.None? || row.lastVerifiedStep.value < step
  }

  function WithSecret(row: Row, secret: Option<string>): Row {
    Row(secret, None, row.requiredOnLogin && secret.Some?)
  }

  class DashboardAuthRepository {
    var row: Row

    method TryAdvanceTotpLastVerifiedStep(step: int) returns (updated: bool)
      modifies this
      ensures updated <==> CanAdvance(old(row), step)
      ensures row == if updated then old(row).(lastVerifiedStep := Some(step)) else old(row)
    {
      if row.lastVerifiedStep.None? || row.lastVerifiedStep.value < step {
        row := row.(lastVerifiedStep := Some(step));
        return true;
      }
      return false;
    }

    method SetTotpSecret(secret: Option<string>)
      modifies this
      ensures row == WithSecret(old(row), secret)
      ensures row.secret == secret && row.lastVerifiedStep.None?
      ensures row.requiredOnLogin <==> old(row.requiredOnLogin) && secret.Some?
    {
      row := row.(secret := secret, lastVerifiedStep := None);
      if secret.None? {
        row := row.(requiredOnLogin := false);
      }
    }
  }

  datatype Verdict = NotConfigured | InvalidCode | Verified(step: int)

  /** `verify_totp` run without interruption: accepted exactly when some step in the
      window, newer than the last accepted one, has this code; it then becomes the
      last accepted one. */
  method VerifyTotp(repository: DashboardAuthRepository, gen: Generator, code: string, now: int)
    returns (verdict: Verdict)
    modifies repository
    ensures verdict.NotConfigured? <==> old(repository.row).secret.None?
    ensures verdict.Verified? <==>
              && old(repository.row).secret.Some?
              && IsRight(gen, old(repository.row).secret.value, code, now, old(repository.row).lastVerifiedStep)
    ensures verdict.Verified? ==>
              && InTime(verdict.step, now) && Writes(code, gen(old(repository.row).secret.value, verdict.step))
    ensures verdict.Verified? ==>
              && TimeStep(now) - WINDOW <= verdict.step <= TimeStep(now) + WINDOW
              && Acceptable(gen, old(repository.row).secret.value, NormalizeCode(code),
                            old(repository.row).lastVerifiedStep, verdict.step)
              && repository.row == old(repository.row).(lastVerifiedStep := Some(verdict.step))
    ensures !verdict.Verified? ==> repository.row == old(repository.row)
    ensures verdict.InvalidCode? && |NormalizeCode(code)| == TOTP_DIGITS ==>
              forall k :: TimeStep(now) - WINDOW <= k <= TimeStep(now) + WINDOW ==>
                !Acceptable(gen, old(repository.row).secret.value, NormalizeCode(code),
                            old(repository.row).lastVerifiedStep, k)
  {
    if repository.row.secret.None? {
      return NotConfigured;
    }
    var matched := VerifyTotpCode(gen, repository.row.secret.value, code, WINDOW, now, repository.row.lastVerifiedStep);
    RightExactly(gen, repository.row.secret.value, code, now, repository.row.lastVerifiedStep);
    if matched.None? {
      return InvalidCode;
    }
    var updated := repository.TryAdvanceTotpLastVerifiedStep(matched.value);
    if !updated {
      return InvalidCode;
    }
    return Verified(matched.value);
  }

  // ---------------------------------------------------------------------------
  // Concurrent requests
  // ---------------------------------------------------------------------------

  /** A `verify_totp` or `disable_totp` request between its awaits. */
  datatype Request =
    | Loaded(secret: string, last: Option<int>)
    | Matched(secret: string, code: string, step: int, now: int)

  /** What was accepted: the step, and the request's view when it matched. */
  datatype Acceptance = Acceptance(secret: string, code: string, step: int, now: int)

  /** `floor` is the last verified step when the current period began: at the start,
      or at the latest `set_totp_secret`.  `accepted` is what that period accepted. */
  datatype System = System(row: Row, requests: map<nat, Request>, floor: Option<int>, accepted: seq<Acceptance>)

  datatype Step =
    | Load(request: nat)
    | Match(request: nat, code: string, now: int)
    | Advance(request: nat)
    | SetSecret(secret: Option<string>)

  function Next(gen: Generator, s: System, step: Step): System {
    match step
    case Load(r) =>
      if r in s.requests || s.row.secret.None? then s
      else s.(requests := s.requests[r := Loaded(s.row.secret.value, s.row.lastVerifiedStep)])
    case Match(r, code, now) =>
      if r !in s.requests || !s.requests[r].Loaded? then s
      else
        var Loaded(secret, last) := s.requests[r];
        (match VerifyTotpCode(gen, secret, code, WINDOW, now, last)
         case None => s.(requests := s.requests - {r})
         case Some(k) => s.(requests := s.requests[r := Matched(secret, code, k, now)]))
    case Advance(r) =>
      if r !in s.requests || !s.requests[r].Matched? then s
      else
        var Matched(secret, code, k, now) := s.requests[r];
        if CanAdvance(s.row, k) then
          System(s.row.(lastVerifiedStep := Some(k)), s.requests - {r}, s.floor,
                 s.accepted + [Acceptance(secret, code, k, now)])
        else s.(requests := s.requests - {r})
    case SetSecret(secret) => System(WithSecret(s.row, secret), s.requests, None, [])
  }

  function Run(gen: Generator, s: System, steps: seq<Step>): System {
    if steps == [] then s else Next(gen, Run(gen, s, steps[..|steps| - 1]), steps[|steps| - 1])
  }

  function Start(row: Row): System {
    System(row, map[], row.lastVerifiedStep, [])
  }

  predicate Genuine(gen: Generator, a: Acceptance) {
    && gen(a.secret, a.step) == NormalizeCode(a.code)
    && TimeStep(a.now) - WINDOW <= a.step <= TimeStep(a.now) + WINDOW
  }

  predicate Increasing(floor: Option<int>, accepted: seq<Acceptance>) {
    && (forall i, j :: 0 <= i < j < |accepted| ==> accepted[i].step < accepted[j].step)
    && (floor.Some? ==> forall i :: 0 <= i < |accepted| ==> floor.value < accepted[i].step)
  }

  function LastStep(floor: Option<int>, accepted: seq<Acceptance>): Option<int> {
    if accepted == [] then floor else Some(accepted[|accepted| - 1].step)
  }

  predicate Inv(gen: Generator, s: System) {
    && s.row.lastVerifiedStep == LastStep(s.floor, s.accepted)
    && Increasing(s.floor, s.accepted)
    && (forall i :: 0 <= i < |s.accepted| ==> Genuine(gen, s.accepted[i]))
    && (forall r :: r in s.requests && s.requests[r].Matched? ==>
          var Matched(secret, code, k, now) := s.requests[r];
          Genuine(gen, Acceptance(secret, code, k, now)))
  }

  lemma {:induction false} IncreasingSnoc(floor: Option<int>, accepted: seq<Acceptance>, a: Acceptance)
    requires Increasing(floor, accepted)
    requires LastStep(floor, accepted).None? || LastStep(floor, accepted).value < a.step
    ensures Increasing(floor, accepted + [a])
  {
  }

  lemma {:induction false} NextKeeps(gen: Generator, s: System, step: Step)
    requires Inv(gen, s)
    ensures Inv(gen, Next(gen, s, step))
  {
    if step.Advance? && step.request in s.requests && s.requests[step.request].Matched? {
      var Matched(secret, code, k, now) := s.requests[step.request];
      if CanAdvance(s.row, k) {
        IncreasingSnoc(s.floor, s.accepted, Acceptance(secret, code, k, now));
      }
    }
  }

  lemma {:induction false} RunKeeps(gen: Generator, row: Row, steps: seq<Step>)
    ensures Inv(gen, Run(gen, Start(row), steps))
  {
    if steps != [] {
      RunKeeps(gen, row, steps[..|steps| - 1]);
      NextKeeps(gen, Run(gen, Start(row), steps[..|steps| - 1]), steps[|steps| - 1]);
    }
  }

  /** In every interleaving, within one period between `set_totp_secret` calls: the
      accepted steps strictly increase, so none is accepted twice; all are newer than
      what was verified before; and each matched a code in its request's window. */
  lemma {:induction false} AcceptedStepsIncrease(gen: Generator, row: Row, steps: seq<Step>, i: nat, j: nat)
    requires i < |Run(gen, Start(row), steps).accepted|
    ensures var s := Run(gen, Start(row), steps);
            && (i < j < |s.accepted| ==> s.accepted[i].step < s.accepted[j].step)
            && s.row.lastVerifiedStep == Some(s.accepted[|s.accepted| - 1].step)
            && (s.floor.Some? ==> s.floor.value < s.accepted[i].step)
            && Genuine(gen, s.accepted[i])
  {
    RunKeeps(gen, row, steps);
  }

  /** The check that reads the row is not enough by itself: two requests that loaded
      the same row can match the same step, and only one of them is accepted. */
  lemma {:induction false} SecondUseIsRejected(gen: Generator, s: System, a: nat, b: nat)
    requires a != b && a in s.requests && b in s.requests
    requires s.requests[a].Matched? && s.requests[b].Matched? && s.requests[a].step == s.requests[b].step
    ensures var t := Next(gen, s, Advance(a));
            var u := Next(gen, t, Advance(b));
            && u.accepted == t.accepted && |u.accepted| <= |s.accepted| + 1 && u.row == t.row
            && b !in u.requests
  {
  }

  // ---------------------------------------------------------------------------
  // Which secret an accepted code belongs to
  // ---------------------------------------------------------------------------

  /** The secret in force after `steps`: the one set last, or the one before them. */
  function LastSecret(steps: seq<Step>, before: Option<string>): Option<string> {
    if steps == [] then before
    else if steps[|steps| - 1].SetSecret? then steps[|steps| - 1].secret
    else LastSecret(steps[..|steps| - 1], before)
  }

  /** A request loads the row once. */
  predicate NoReload(steps: seq<Step>, r: nat) {
    forall i :: 0 <= i < |steps| ==> steps[i] != Load(r)
  }

  lemma {:induction false} SecretInForce(gen: Generator, s: System, steps: seq<Step>)
    ensures Run(gen, s, steps).row.secret == LastSecret(steps, s.row.secret)
  {
    if steps != [] {
      SecretInForce(gen, s, steps[..|steps| - 1]);
    }
  }

  lemma {:induction false} RequestKeepsSecret(gen: Generator, s: System, steps: seq<Step>, r: nat)
    requires r in s.requests && NoReload(steps, r)
    ensures var t := Run(gen, s, steps);
            r in t.requests ==> t.requests[r].secret == s.requests[r].secret
  {
    if steps != [] {
      RequestKeepsSecret(gen, s, steps[..|steps| - 1], r);
      var t, step := Run(gen, s, steps[..|steps| - 1]), steps[|steps| - 1];
      assert r in Next(gen, t, step).requests ==> r in t.requests;
    }
  }

  /** The compare-and-set does not look at the secret.  A code is accepted for the
      secret its request loaded; that is the secret in force exactly when the latest
      `set_totp_secret` between load and compare-and-set, if any, set the same one. */
  lemma {:induction false} AcceptedSecretInForceExactly(gen: Generator, s: System, r: nat, between: seq<Step>)
    requires s.row.secret.Some? && r !in s.requests && NoReload(between, r)
    requires var t := Run(gen, Next(gen, s, Load(r)), between);
             r in t.requests && t.requests[r].Matched? && CanAdvance(t.row, t.requests[r].step)
    ensures var t := Run(gen, Next(gen, s, Load(r)), between);
            var u := Next(gen, t, Advance(r));
            && |u.accepted| == |t.accepted| + 1
            && u.accepted[|t.accepted|].secret == s.row.secret.value
            && (u.row.secret == Some(u.accepted[|t.accepted|].secret)
                <==> LastSecret(between, s.row.secret) == s.row.secret)
  {
    SecretInForce(gen, Next(gen, s, Load(r)), between);
    RequestKeepsSecret(gen, Next(gen, s, Load(r)), between, r);
  }

  /** So a request that matched in time is accepted after TOTP was switched off. */
  lemma {:induction false} AcceptedAfterDisabling(gen: Generator, secret: string, code: string, now: int)
    requires VerifyTotpCode(gen, secret, code, WINDOW, now, None).Some?
    ensures var t := Run(gen, Start(Row(Some(secret), None, true)),
                         [Load(0), Match(0, code, now), SetSecret(None), Advance(0)]);
            && t.row.secret.None? && t.row.lastVerifiedStep.Some?
            && |t.accepted| == 1 && t.accepted[0].secret == secret
  {
    var steps := [Load(0), Match(0, code, now), SetSecret(None), Advance(0)];
    var s0 := Start(Row(Some(secret), None, true));
    assert steps[..3] == [Load(0), Match(0, code, now), SetSecret(None)];
    assert steps[..3][..2] == [Load(0), Match(0, code, now)] && steps[..3][..2][..1] == [Load(0)];
    assert [Load(0)][..0] == [];
    var s1 := Next(gen, s0, Load(0));
    assert Run(gen, s0, [Load(0)]) == s1;
    var s2 := Next(gen, s1, Match(0, code, now));
    assert Run(gen, s0, steps[..3][..2]) == s2;
    assert Run(gen, s0, steps[..3]) == Next(gen, s2, SetSecret(None));
  }
}
