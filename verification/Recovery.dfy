/**
 Recovery codes (backend/src/auth/recovery-codes.ts) over sequences of login
 attempts (backend/src/http/routes/auth.ts:77-87). The hash is an arbitrary
 function of the code as typed.
 */
module Recovery {
  import opened Wrappers

  datatype RecoveryCode = RecoveryCode(codeHash: string, usedAt: Option<string>)

  type Hash = string -> string

  predicate Usable(c: RecoveryCode, h: string) {
    c.codeHash == h && (c.usedAt.None? || c.usedAt.value == "")
  }

  /** `findIndex` of an unused entry with this hash. */
  function FirstUsable(codes: seq<RecoveryCode>, h: string): (r: Option<nat>)
    ensures r.Some? ==> r.value < |codes| && Usable(codes[r.value], h)
    ensures r.Some? ==> forall j :: 0 <= j < r.value ==> !Usable(codes[j], h)
    ensures r.None? ==> forall j :: 0 <= j < |codes| ==> !Usable(codes[j], h)
  {
    if codes == [] then None
    else if Usable(codes[0], h) then Some(0)
    else
      match FirstUsable(codes[1..], h)
      case Some(i) => Some(i + 1)
      case None => None
  }

  function Consume(codes: seq<RecoveryCode>, h: string, now: string): Option<seq<RecoveryCode>> {
    match FirstUsable(codes, h)
    case None => None
    case Some(idx) =>
      Some(seq(|codes|, i requires 0 <= i < |codes| =>
        if i == idx then codes[i].(usedAt := Some(now)) else codes[i]))
  }

  /** A code typed at a time, whose ISO text is never empty. */
  datatype Attempt = Attempt(candidate: string, now: string)

  /** What a sequence of attempts leaves, and how often each hash got in. */
  datatype Log = Log(codes: seq<RecoveryCode>, successes: seq<string>)

  function Run(hash: Hash, codes: seq<RecoveryCode>, attempts: seq<Attempt>): Log {
    if attempts == [] then Log(codes, [])
    else
      var before := Run(hash, codes, attempts[..|attempts| - 1]);
      var a := attempts[|attempts| - 1];
      match Consume(before.codes, hash(a.candidate), a.now)
      case None => before
      case Some(updated) => Log(updated, before.successes + [hash(a.candidate)])
  }

  function CountUsable(codes: seq<RecoveryCode>, h: string): nat {
    if codes == [] then 0 else CountUsable(codes[..|codes| - 1], h) + if Usable(codes[|codes| - 1], h) then 1 else 0
  }

  function CountTries(hash: Hash, attempts: seq<Attempt>, h: string): nat {
    if attempts == [] then 0
    else
      CountTries(hash, attempts[..|attempts| - 1], h) +
      if hash(attempts[|attempts| - 1].candidate) == h then 1 else 0
  }

  function Min(a: nat, b: nat): nat {
    if a <= b then a else b
  }

  predicate Clocked(attempts: seq<Attempt>) {
    forall i :: 0 <= i < |attempts| ==> attempts[i].now != ""
  }

  lemma {:induction false} CountUsableUpdate(codes: seq<RecoveryCode>, idx: nat, c: RecoveryCode, h: string)
    requires idx < |codes| && Usable(codes[idx], h) && !Usable(c, h)
    ensures CountUsable(codes, h) == CountUsable(codes[idx := c], h) + 1
  {
    var after := codes[idx := c];
    var init := codes[..|codes| - 1];
    if idx < |init| {
      CountUsableUpdate(init, idx, c, h);
      assert after[..|codes| - 1] == init[idx := c];
    } else {
      assert after[..|codes| - 1] == init;
    }
  }

  lemma {:induction false} CountUsableSame(a: seq<RecoveryCode>, b: seq<RecoveryCode>, h: string)
    requires |a| == |b| && forall i :: 0 <= i < |a| ==> (Usable(a[i], h) <==> Usable(b[i], h))
    ensures CountUsable(a, h) == CountUsable(b, h)
  {
    if a != [] {
      CountUsableSame(a[..|a| - 1], b[..|b| - 1], h);
    }
  }

  lemma {:induction false} NoneUsable(codes: seq<RecoveryCode>, h: string)
    ensures CountUsable(codes, h) == 0 <==> FirstUsable(codes, h) == None
  {
    if codes != [] {
      NoneUsable(codes[..|codes| - 1], h);
      assert forall i :: 0 <= i < |codes| - 1 ==> codes[..|codes| - 1][i] == codes[i];
    }
  }

  /** A success marks exactly one entry, the first usable one, and changes nothing else. */
  lemma ConsumeMarksOne(codes: seq<RecoveryCode>, h: string, now: string)
    requires Consume(codes, h, now).Some?
    ensures var idx := FirstUsable(codes, h);
            && idx.Some?
            && Consume(codes, h, now) == Some(codes[idx.value := codes[idx.value].(usedAt := Some(now))])
  {
    var idx := FirstUsable(codes, h).value;
    assert Consume(codes, h, now).value == codes[idx := codes[idx].(usedAt := Some(now))];
  }

  /**
   Single use over any sequence of attempts: the list keeps its length and hashes,
   a hash gets in exactly as often as it is tried until its entries are used up,
   and the entries left usable are those not yet spent.
   */
  lemma {:induction false} SingleUse(hash: Hash, codes: seq<RecoveryCode>, attempts: seq<Attempt>, h: string)
    requires Clocked(attempts)
    ensures var log := Run(hash, codes, attempts);
            && |log.codes| == |codes|
            && (forall i :: 0 <= i < |codes| ==> log.codes[i].codeHash == codes[i].codeHash)
            && multiset(log.successes)[h] == Min(CountTries(hash, attempts, h), CountUsable(codes, h))
            && CountUsable(log.codes, h) == CountUsable(codes, h) - multiset(log.successes)[h]
    decreases |attempts|
  {
    hide FirstUsable, Usable;
    if attempts != [] {
      var init, a := attempts[..|attempts| - 1], attempts[|attempts| - 1];
      SingleUse(hash, codes, init, h);
      AttemptSpends(Run(hash, codes, init).codes, hash(a.candidate), a.now, h);
    }
  }

  lemma AttemptSpends(codes: seq<RecoveryCode>, tried: string, now: string, h: string)
    requires now != ""
    ensures Consume(codes, tried, now).None? ==> CountUsable(codes, tried) == 0
    ensures Consume(codes, tried, now).Some? ==>
              var after := Consume(codes, tried, now).value;
              && |after| == |codes|
              && (forall i :: 0 <= i < |codes| ==> after[i].codeHash == codes[i].codeHash)
              && CountUsable(codes, h) == CountUsable(after, h) + if tried == h then 1 else 0
  {
    NoneUsable(codes, tried);
    if Consume(codes, tried, now).Some? {
      ConsumeMarksOne(codes, tried, now);
      var idx := FirstUsable(codes, tried).value;
      var after := Consume(codes, tried, now).value;
      if tried == h {
        CountUsableUpdate(codes, idx, after[idx], h);
      } else {
        CountUsableSame(codes, after, h);
      }
    }
  }
}
