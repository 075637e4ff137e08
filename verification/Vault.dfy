/**
 The envelope-encryption vault (backend/src/crypto/vault.ts). Sealing is ideal: a
 box opens under its own key and nonce and under nothing else. The key derivation
 is an arbitrary function. Key buffers are arrays, so zeroing one in place is
 seen by everything that shares it.
 */
module Vault {
  import opened Wrappers

  type Bytes = seq<bv8>

  /** passphrase and salt to key-encryption key. */
  type Kdf = (string, Bytes) -> Bytes

  /** A secretbox with its nonce in front. */
  datatype Sealed = Sealed(nonce: Bytes, box: Box)

  datatype Box = Box(key: Bytes, nonce: Bytes, plain: Bytes)

  datatype VaultRow = VaultRow(salt: Bytes, wrapped: Sealed)

  datatype VaultError = AlreadyInitialized | NotInitialized | Locked | BadCiphertext

  function Seal(plain: Bytes, nonce: Bytes, key: Bytes): Sealed {
    Sealed(nonce, Box(key, nonce, plain))
  }

  function Open(c: Sealed, key: Bytes): Option<Bytes> {
    if c.box.key == key && c.box.nonce == c.nonce then Some(c.box.plain) else None
  }

  // ---------------------------------------------------------------- the state machine

  /** The stored row, and the data-encryption key when unlocked. */
  datatype VaultState = VaultState(row: Option<VaultRow>, dek: Option<Bytes>)

  datatype Op =
    | Init(passphrase: string, salt: Bytes, newDek: Bytes, nonce: Bytes)
    | Unlock(passphrase: string)
    | Lock
    | Change(current: string, next: string, salt: Bytes, nonce: Bytes)
    | Encrypt(plain: Bytes, nonce: Bytes)
    | Decrypt(cipher: Sealed)
    | Restart

  datatype Output = Done | Answer(ok: bool) | Cipher(cipher: Sealed) | Plain(plain: Bytes) | Failed(error: VaultError)

  function Unwrapped(kdf: Kdf, row: VaultRow, passphrase: string): Option<Bytes> {
    Open(row.wrapped, kdf(passphrase, row.salt))
  }

  function Wrapped(kdf: Kdf, dek: Bytes, passphrase: string, salt: Bytes, nonce: Bytes): VaultRow {
    VaultRow(salt, Seal(dek, nonce, kdf(passphrase, salt)))
  }

  function Step(kdf: Kdf, s: VaultState, op: Op): (VaultState, Output) {
    match op
    case Init(passphrase, salt, newDek, nonce) =>
      if s.row.Some? then (s, Failed(AlreadyInitialized))
      else (VaultState(Some(Wrapped(kdf, newDek, passphrase, salt, nonce)), Some(newDek)), Done)
    case Unlock(passphrase) =>
      if s.row.None? then (s, Failed(NotInitialized))
      else
        (match Unwrapped(kdf, s.row.value, passphrase)
         case None => (s, Answer(false))
         case Some(dek) => (s.(dek := Some(dek)), Answer(true)))
    case Lock => (s.(dek := None), Done)
    case Change(current, next, salt, nonce) =>
      if s.row.None? then (s, Failed(NotInitialized))
      else
        (match Unwrapped(kdf, s.row.value, current)
         case None => (s, Answer(false))
         case Some(dek) => (VaultState(Some(Wrapped(kdf, dek, next, salt, nonce)), Some(dek)), Answer(true)))
    case Encrypt(plain, nonce) =>
      if s.dek.None? then (s, Failed(Locked)) else (s, Cipher(Seal(plain, nonce, s.dek.value)))
    case Decrypt(cipher) =>
      if s.dek.None? then (s, Failed(Locked))
      else
        (match Open(cipher, s.dek.value)
         case None => (s, Failed(BadCiphertext))
         case Some(plain) => (s, Plain(plain)))
    case Restart => (s.(dek := None), Done)
  }

  // ---------------------------------------------------------------- runs

  /** A ciphertext `Encrypt` returned, and what it was made from. */
  datatype Made = Made(cipher: Sealed, plain: Bytes)

  /** A run's state with what an observer remembers of it. */
  datatype History = History(state: VaultState, master: Option<Bytes>, passphrase: Option<string>, made: seq<Made>)

  const EMPTY := History(VaultState(None, None), None, None, [])

  function Record(kdf: Kdf, h: History, op: Op): History {
    var (s, out) := Step(kdf, h.state, op);
    match (op, out)
    case (Init(passphrase, _, newDek, _), Done) => History(s, Some(newDek), Some(passphrase), h.made)
    case (Change(_, next, _, _), Answer(true)) => History(s, h.master, Some(next), h.made)
    case (Encrypt(plain, _), Cipher(c)) => History(s, h.master, h.passphrase, h.made + [Made(c, plain)])
    case _ => h.(state := s)
  }

  function Run(kdf: Kdf, ops: seq<Op>): History {
    if ops == [] then EMPTY else Record(kdf, Run(kdf, ops[..|ops| - 1]), ops[|ops| - 1])
  }

  /** The stored row wraps the master key under the passphrase last set; nothing else is ever in memory. */
  predicate Faithful(kdf: Kdf, h: History) {
    && (h.state.row.Some? <==> h.master.Some?)
    && (h.master.Some? <==> h.passphrase.Some?)
    && (h.state.row.Some? ==>
          h.state.row.value ==
          Wrapped(kdf, h.master.value, h.passphrase.value, h.state.row.value.salt, h.state.row.value.wrapped.nonce))
    && (h.state.dek.Some? ==> h.state.dek == h.master)
    && (h.made != [] ==> h.master.Some?)
    && forall i :: 0 <= i < |h.made| ==> Open(h.made[i].cipher, h.master.value) == Some(h.made[i].plain)
  }

  lemma StepFaithful(kdf: Kdf, h: History, op: Op)
    requires Faithful(kdf, h)
    ensures Faithful(kdf, Record(kdf, h, op))
    ensures h.made <= Record(kdf, h, op).made
    ensures h.master.Some? ==> Record(kdf, h, op).master == h.master
  {
  }

  /** Over any run an unlocked vault holds the very key fixed when it was initialised. */
  lemma {:induction false} RunFaithful(kdf: Kdf, ops: seq<Op>)
    ensures Faithful(kdf, Run(kdf, ops))
  {
    hide Record;
    if ops != [] {
      RunFaithful(kdf, ops[..|ops| - 1]);
      StepFaithful(kdf, Run(kdf, ops[..|ops| - 1]), ops[|ops| - 1]);
    }
  }

  /** Continuing a run keeps the master key and every ciphertext made. */
  lemma {:induction false} RunExtends(kdf: Kdf, ops: seq<Op>, more: seq<Op>)
    ensures Run(kdf, ops).made <= Run(kdf, ops + more).made
    ensures Run(kdf, ops).master.Some? ==> Run(kdf, ops + more).master == Run(kdf, ops).master
    decreases |more|
  {
    hide Record, Faithful;
    if more == [] {
      assert ops + more == ops;
    } else {
      var init := more[..|more| - 1];
      RunExtends(kdf, ops, init);
      assert (ops + more)[..|ops + more| - 1] == ops + init;
      RunFaithful(kdf, ops + init);
      StepFaithful(kdf, Run(kdf, ops + init), more[|more| - 1]);
    }
  }

  /** Every ciphertext ever made decrypts to its plaintext in every later unlocked state. */
  lemma MadeDecryptsLater(kdf: Kdf, ops: seq<Op>, more: seq<Op>, i: nat)
    requires i < |Run(kdf, ops).made|
    requires Run(kdf, ops + more).state.dek.Some?
    ensures var made := Run(kdf, ops).made[i];
            Step(kdf, Run(kdf, ops + more).state, Decrypt(made.cipher)) ==
                (Run(kdf, ops + more).state, Plain(made.plain))
  {
    hide Run;
    RunFaithful(kdf, ops + more);
    RunExtends(kdf, ops, more);
    assert Run(kdf, ops + more).made[i] == Run(kdf, ops).made[i];
  }

  /** `unlock(p)` succeeds exactly when `p` derives the same key as the passphrase last set. */
  lemma UnlockExact(kdf: Kdf, ops: seq<Op>, p: string)
    ensures var h := Run(kdf, ops);
            var (after, r) := Step(kdf, h.state, Unlock(p));
            && (h.state.row.None? ==> r == Failed(NotInitialized))
            && (h.state.row.Some? ==>
                  && h.passphrase.Some?
                  && r == Answer(kdf(p, h.state.row.value.salt) == kdf(h.passphrase.value, h.state.row.value.salt)))
            && (r != Answer(true) ==> after == h.state)
            && (r == Answer(true) ==> after == h.state.(dek := h.master))
  {
    hide Run;
    RunFaithful(kdf, ops);
  }

  /** So, barring a collision of the key derivation, exactly when `p` is that passphrase. */
  lemma UnlockIffLastPassphrase(kdf: Kdf, ops: seq<Op>, p: string)
    requires Run(kdf, ops).state.row.Some?
    requires Run(kdf, ops).passphrase.Some? ==>
               (kdf(p, Run(kdf, ops).state.row.value.salt) ==
                   kdf(Run(kdf, ops).passphrase.value, Run(kdf, ops).state.row.value.salt)
                ==> p == Run(kdf, ops).passphrase.value)
    ensures Step(kdf, Run(kdf, ops).state, Unlock(p)).1 == Answer(true) <==> Run(kdf, ops).passphrase == Some(p)
  {
    hide Run;
    UnlockExact(kdf, ops, p);
  }

  // ---------------------------------------------------------------- what every call answers, in every run

  /** The first `init` of a run fixes the key, and only an `init` does. */
  lemma {:induction false} InitialisedExactly(kdf: Kdf, ops: seq<Op>)
    ensures Run(kdf, ops).state.row.Some? <==> exists k :: 0 <= k < |ops| && ops[k].Init?
    ensures forall k :: 0 <= k < |ops| && FirstInit(ops, k) ==> Run(kdf, ops).master == Some(ops[k].newDek)
  {
    hide Record;
    if ops != [] {
      var init, op := ops[..|ops| - 1], ops[|ops| - 1];
      assert ops == init + [op];
      InitialisedExactly(kdf, init);
      RunFaithful(kdf, init);
      InitRecorded(kdf, Run(kdf, init), op);
      forall k | 0 <= k < |ops| && FirstInit(ops, k)
        ensures Run(kdf, ops).master == Some(ops[k].newDek)
      {
        if k < |init| {
          assert FirstInit(init, k);
        }
      }
    }
  }

  predicate FirstInit(ops: seq<Op>, k: int) {
    0 <= k < |ops| && ops[k].Init? && forall j :: 0 <= j < k ==> !ops[j].Init?
  }

  lemma InitRecorded(kdf: Kdf, h: History, op: Op)
    requires Faithful(kdf, h)
    ensures Record(kdf, h, op).state.row.Some? <==> h.state.row.Some? || op.Init?
    ensures Record(kdf, h, op).master ==
            if h.master.Some? then h.master else if op.Init? then Some(op.newDek) else None
  {
  }

  /** `init` is done exactly when there is no row; the vault is then open, and its passphrase opens it again. */
  lemma InitExact(kdf: Kdf, ops: seq<Op>, passphrase: string, salt: Bytes, newDek: Bytes, nonce: Bytes)
    ensures var s := Run(kdf, ops).state;
            var (after, r) := Step(kdf, s, Init(passphrase, salt, newDek, nonce));
            && (if s.row.None? then r == Done else r == Failed(AlreadyInitialized) && after == s)
            && (r == Done ==>
                  && after.dek == Some(newDek) && after.row.Some? && after.row.value.salt == salt
                  && forall p :: Step(kdf, after.(dek := None), Unlock(p)) ==
                       if kdf(p, salt) == kdf(passphrase, salt) then (after, Answer(true))
                       else (after.(dek := None), Answer(false)))
  {
    hide Run;
  }

  /**
   `changePassphrase` answers true exactly when the current passphrase derives the
   key last set. The vault is then open with the same key, and just what derives
   the same key as the next passphrase opens it.
   */
  lemma ChangeExact(kdf: Kdf, ops: seq<Op>, current: string, next: string, salt: Bytes, nonce: Bytes)
    ensures var h := Run(kdf, ops);
            var (after, r) := Step(kdf, h.state, Change(current, next, salt, nonce));
            && (h.state.row.None? ==> r == Failed(NotInitialized))
            && (h.state.row.Some? ==>
                  && h.passphrase.Some?
                  && r == Answer(kdf(current, h.state.row.value.salt) ==
                      kdf(h.passphrase.value, h.state.row.value.salt)))
            && (r != Answer(true) ==> after == h.state)
            && (r == Answer(true) ==>
                  && after.dek == h.master && after.row.Some? && after.row.value.salt == salt
                  && forall p :: Step(kdf, after.(dek := None), Unlock(p)) ==
                       if kdf(p, salt) == kdf(next, salt) then (after, Answer(true))
                       else (after.(dek := None), Answer(false)))
  {
    hide Run;
    RunFaithful(kdf, ops);
  }

  /** A locked vault seals nothing; an open one seals under its key, for that key alone. */
  lemma EncryptExact(kdf: Kdf, ops: seq<Op>, plain: Bytes, nonce: Bytes)
    ensures var h := Run(kdf, ops);
            var (after, r) := Step(kdf, h.state, Encrypt(plain, nonce));
            && after == h.state
            && (r == Failed(Locked) <==> h.state.dek.None?)
            && (h.state.dek.Some? ==>
                  && h.master.Some? && r.Cipher? && r.cipher.nonce == nonce
                  && forall key :: Open(r.cipher, key) == if key == h.master.value then Some(plain) else None)
  {
    hide Run;
    RunFaithful(kdf, ops);
  }

  /** A locked vault opens nothing; an open one opens exactly what its key opens. */
  lemma DecryptExact(kdf: Kdf, ops: seq<Op>, cipher: Sealed)
    ensures var h := Run(kdf, ops);
            var (after, r) := Step(kdf, h.state, Decrypt(cipher));
            && after == h.state
            && (r == Failed(Locked) <==> h.state.dek.None?)
            && (h.state.dek.Some? ==>
                  && h.master.Some?
                  && r == match Open(cipher,
                      h.master.value) case Some(p) => Plain(p) case None => Failed(BadCiphertext))
  {
    hide Run;
    RunFaithful(kdf, ops);
  }

  /**
   Whether the vault is open: an `init`, an unlock or a change that succeeds opens it, a lock
   or a restart closes it.
   */
  lemma OpenExactly(kdf: Kdf, ops: seq<Op>, op: Op)
    ensures var s := Run(kdf, ops).state;
            var (after, r) := Step(kdf, s, op);
            after.dek.Some? <==>
            || r == Answer(true) || (op.Init? && r == Done)
            || (s.dek.Some? && !op.Lock? && !op.Restart?)
  {
    hide Run;
  }

  // ---------------------------------------------------------------- how often the key was brought into memory

  /** Successful unlocks and passphrase changes since the process last started. */
  function Unwraps(kdf: Kdf, ops: seq<Op>): nat {
    if ops == [] then 0
    else
      var init, op := ops[..|ops| - 1], ops[|ops| - 1];
      if op == Restart then 0
      else Unwraps(kdf, init) + if Step(kdf, Run(kdf, init).state, op).1 == Answer(true) then 1 else 0
  }

  /** The key-encryption keys a call derives, in order. */
  function DerivedBy(kdf: Kdf, s: VaultState, op: Op): seq<Bytes> {
    match op
    case Init(passphrase, salt, _, _) => if s.row.Some? then [] else [kdf(passphrase, salt)]
    case Unlock(passphrase) => if s.row.None? then [] else [kdf(passphrase, s.row.value.salt)]
    case Change(current, next, salt, _) =>
      if s.row.None? then []
      else
        [kdf(current, s.row.value.salt)] +
        if Unwrapped(kdf, s.row.value, current).Some? then [kdf(next, salt)] else []
    case _ => []
  }

  /** Those derived since the process last started. */
  function Derived(kdf: Kdf, ops: seq<Op>): seq<Bytes> {
    if ops == [] then []
    else
      var init, op := ops[..|ops| - 1], ops[|ops| - 1];
      if op == Restart then [] else Derived(kdf, init) + DerivedBy(kdf, Run(kdf, init).state, op)
  }

  // ---------------------------------------------------------------- the buffers

  predicate Zero(bytes: Bytes) {
    forall i :: 0 <= i < |bytes| ==> bytes[i] == 0
  }

  method Fill(buffer: array<bv8>)
    modifies buffer
    ensures Zero(buffer[..]) && |buffer[..]| == |old(buffer[..])|
  {
    for i := 0 to buffer.Length
      invariant forall j :: 0 <= j < i ==> buffer[j] == 0
    {
      buffer[i] := 0;
    }
  }

  method Buffer(bytes: Bytes) returns (buffer: array<bv8>)
    ensures fresh(buffer) && buffer[..] == bytes
  {
    buffer := new bv8[|bytes|](i requires 0 <= i < |bytes| => bytes[i]);
  }

  /** A wrapped buffer opens under the wrapping key, whatever becomes of the buffers, and under no other. */
  method Wrap(dekPlain: array<bv8>, kek: array<bv8>, nonce: Bytes) returns (wrapped: Sealed)
    ensures forall key :: Open(wrapped, key) == if key == kek[..] then Some(dekPlain[..]) else None
    ensures wrapped.nonce == nonce
  {
    wrapped := Seal(dekPlain[..], nonce, kek[..]);
  }

  /** `unwrap` opens into one buffer and returns a copy; the first one, `plain`, is never zeroed. */
  method Unwrap(wrapped: Sealed, kek: array<bv8>) returns (dekPlain: array?<bv8>, ghost plain: array?<bv8>)
    ensures dekPlain == null <==> Open(wrapped, kek[..]) == None
    ensures dekPlain == null <==> plain == null
    ensures dekPlain != null ==>
              && fresh(dekPlain) && fresh(plain) && dekPlain != plain
              && Open(wrapped, kek[..]) == Some(dekPlain[..]) && plain[..] == dekPlain[..]
  {
    match Open(wrapped, kek[..])
    case None => dekPlain, plain := null, null;
    case Some(bytes) =>
      var inner := Buffer(bytes);
      dekPlain := Buffer(inner[..]);
      plain := inner;
  }

  ghost predicate Zeroed(buffer: array<bv8>)
    reads buffer
  {
    Zero(buffer[..])
  }

  ghost predicate Holds(buffer: array<bv8>, key: Bytes)
    reads buffer
  {
    buffer[..] == key
  }

  /** The data-encryption key inside a stored row. */
  function KeyOf(row: VaultRow): Bytes {
    row.wrapped.box.plain
  }

  class VaultService {
    const kdf: Kdf
    var row: Option<VaultRow>
    var dek: array?<bv8>
    /** Every buffer the data-encryption key was put in since the process started. */
    ghost var copies: set<array<bv8>>
    /** Those of them that went out of reach as they were. */
    ghost var strays: set<array<bv8>>
    ghost var unwraps: nat
    /** The key-encryption keys derived since then, the buffer each arrived in, and the one it was used from. */
    ghost var derived: seq<Bytes>
    ghost var raws: seq<array<bv8>>
    ghost var spent: seq<array<bv8>>

    ghost function State(): VaultState
      reads this, dek
    {
      VaultState(row, if dek == null then None else Some(dek[..]))
    }

    /** The buffer in use and the strays hold the key; every other copy has been zeroed. */
    ghost predicate Valid()
      reads this, copies, raws, spent
    {
      && KeksValid() && dek !in raws && dek !in spent
      && (row.None? ==> copies == {})
      && (dek != null ==> row.Some? && dek in copies && dek !in strays && dek[..] == KeyOf(row.value))
      && strays <= copies
      && (row.Some? ==> forall a :: a in strays ==> Holds(a, KeyOf(row.value)))
      && (forall a :: a in copies ==> a == dek || a in strays || Zeroed(a))
      && (strays == {} <==> unwraps == 0)
    }

    /** The buffers keys were used from are zero; those the keys arrived in still hold them. */
    ghost predicate KeksValid()
      reads `derived, `raws, `spent, raws, spent
    {
      && |raws| == |spent| == |derived|
      && (forall i :: 0 <= i < |raws| ==> Holds(raws[i], derived[i]))
      && (forall a :: a in spent ==> Zeroed(a))
    }

    constructor (kdf: Kdf)
      ensures this.kdf == kdf && Valid() && State() == VaultState(None, None)
      ensures copies == {} && strays == {} && unwraps == 0
      ensures derived == [] && raws == [] && spent == []
    {
      this.kdf := kdf;
      row, dek := None, null;
      copies, strays, unwraps := {}, {}, 0;
      derived, raws, spent := [], [], [];
    }

    /** The derived bytes arrive in `raw`; the key used is a copy, and `raw` is never zeroed. */
    method DeriveKek(passphrase: string, salt: Bytes) returns (kek: array<bv8>, ghost raw: array<bv8>)
      ensures fresh(kek) && fresh(raw) && kek != raw && kek[..] == raw[..] == kdf(passphrase, salt)
    {
      var derived := Buffer(kdf(passphrase, salt));
      kek := Buffer(derived[..]);
      raw := derived;
    }

    /** Two buffers more than before, both new: one more key arrived, one more was used. */
    twostate predicate KekAdded()
      reads this
    {
      && |raws| == |old(raws)| + 1 && old(raws) <= raws && fresh(raws[|old(raws)|])
      && |spent| == |old(spent)| + 1 && old(spent) <= spent && fresh(spent[|old(spent)|])
    }

    /** Deriving, wrapping and zeroing, as `initVault` and `changePassphrase` do them. */
    method WrapUnder(dekPlain: array<bv8>, passphrase: string, salt: Bytes, nonce: Bytes) returns (sealed: VaultRow)
      requires KeksValid()
      modifies this`derived, this`raws, this`spent
      ensures sealed == Wrapped(kdf, dekPlain[..], passphrase, salt, nonce)
      ensures KeksValid() && KekAdded()
      ensures derived == old(derived) + [kdf(passphrase, salt)]
    {
      var kek, raw := DeriveKek(passphrase, salt);
      var wrapped := Wrap(dekPlain, kek, nonce);
      WrappedIsSealed(wrapped, dekPlain[..], kek[..]);
      Fill(kek);
      derived, raws, spent := derived + [kdf(passphrase, salt)], raws + [raw], spent + [kek];
      sealed := VaultRow(salt, wrapped);
    }

    /** Deriving, unwrapping and zeroing, as `unlock` and `changePassphrase` do them. */
    method UnwrapUnder(stored: VaultRow, passphrase: string) returns (dekPlain: array?<bv8>, ghost plain: array?<bv8>)
      requires KeksValid()
      modifies this`derived, this`raws, this`spent
      ensures KeksValid() && KekAdded()
      ensures derived == old(derived) + [kdf(passphrase, stored.salt)]
      ensures dekPlain == null <==> Unwrapped(kdf, stored, passphrase) == None
      ensures dekPlain == null <==> plain == null
      ensures dekPlain != null ==>
                && fresh(dekPlain) && fresh(plain) && dekPlain != plain
                && dekPlain !in raws && dekPlain !in spent
                && Unwrapped(kdf, stored, passphrase) == Some(dekPlain[..])
                && plain[..] == dekPlain[..] == KeyOf(stored)
    {
      var kek, raw := DeriveKek(passphrase, stored.salt);
      dekPlain, plain := Unwrap(stored.wrapped, kek);
      Fill(kek);
      derived, raws, spent := derived + [kdf(passphrase, stored.salt)], raws + [raw], spent + [kek];
    }

    method InitVault(passphrase: string, salt: Bytes, newDek: Bytes, nonce: Bytes) returns (r: Output)
      requires Valid()
      modifies this
      ensures Valid() && strays == old(strays) && unwraps == old(unwraps)
      ensures (State(), r) == Step(kdf, old(State()), Init(passphrase, salt, newDek, nonce))
      ensures if r == Done then fresh(dek) && copies == old(copies) + {dek}
              else dek == old(dek) && copies == old(copies)
      ensures derived == old(derived) + DerivedBy(kdf, old(State()), Init(passphrase, salt, newDek, nonce))
      ensures old(raws) <= raws && old(spent) <= spent
    {
      if row.Some? {
        return Failed(AlreadyInitialized);
      }
      var dekPlain := Buffer(newDek);
      var sealed := WrapUnder(dekPlain, passphrase, salt, nonce);
      row := Some(sealed);
      dek := dekPlain;
      copies := copies + {dekPlain};
      r := Done;
    }

    /**
     A successful unlock puts the key in two new buffers and keeps one of them in
     reach; a buffer in use before is let go of as it is.
     */
    method UnlockVault(passphrase: string) returns (r: Output, ghost plain: array?<bv8>)
      requires Valid()
      modifies this
      ensures Valid()
      ensures (State(), r) == Step(kdf, old(State()), Unlock(passphrase))
      ensures if r == Answer(true) then
                && plain != null && fresh(plain) && fresh(dek) && plain != dek
                && copies == old(copies) + {plain, dek}
                && strays == old(strays) + {plain} + (if old(dek) == null then {} else {old(dek)})
                && unwraps == old(unwraps) + 1
              else
                && dek == old(dek) && copies == old(copies) && strays == old(strays) && unwraps == old(unwraps)
      ensures derived == old(derived) + DerivedBy(kdf, old(State()), Unlock(passphrase))
      ensures old(raws) <= raws && old(spent) <= spent
    {
      plain := null;
      if row.None? {
        return Failed(NotInitialized), null;
      }
      var dekPlain, inner := UnwrapUnder(row.value, passphrase);
      if dekPlain == null {
        return Answer(false), null;
      }
      strays := strays + {inner} + (if dek == null then {} else {dek});
      dek := dekPlain;
      copies := copies + {inner, dekPlain};
      unwraps := unwraps + 1;
      r, plain := Answer(true), inner;
    }

    /** After a lock every copy but the strays is zero, and the strays still hold the key. */
    method LockVault()
      requires Valid()
      modifies this`dek, if dek == null then {} else {dek}
      ensures Valid() && State() == Step(kdf, old(State()), Lock).0
      ensures derived == old(derived) && raws == old(raws) && spent == old(spent)
      ensures forall a :: a in copies ==> if a in strays then Holds(a, KeyOf(row.value)) else Zeroed(a)
    {
      if dek != null {
        Fill(dek);
        dek := null;
      }
    }

    /** The new buffer holds the same key although the old one is zeroed in place; the opened one strays. */
    method ChangePassphrase(current: string, next: string, salt: Bytes, nonce: Bytes)
      returns (r: Output, ghost plain: array?<bv8>)
      requires Valid()
      modifies this, if dek == null then {} else {dek}
      ensures Valid()
      ensures (State(), r) == Step(kdf, old(State()), Change(current, next, salt, nonce))
      ensures if r == Answer(true) then
                && plain != null && fresh(plain) && fresh(dek) && plain != dek
                && copies == old(copies) + {plain, dek} && strays == old(strays) + {plain}
                && unwraps == old(unwraps) + 1
                && (old(dek) != null ==> Zeroed(old(dek)))
              else
                && dek == old(dek) && copies == old(copies) && strays == old(strays) && unwraps == old(unwraps)
      ensures derived == old(derived) + DerivedBy(kdf, old(State()), Change(current, next, salt, nonce))
      ensures old(raws) <= raws && old(spent) <= spent
    {
      plain := null;
      if row.None? {
        return Failed(NotInitialized), null;
      }
      var dekPlain, inner := UnwrapUnder(row.value, current);
      if dekPlain == null {
        return Answer(false), null;
      }
      Rewrap(dekPlain, inner, next, salt, nonce);
      r, plain := Answer(true), inner;
    }

    /** Wraps the opened key anew, and puts its buffer in the place of the one in use. */
    method Rewrap(dekPlain: array<bv8>, ghost inner: array<bv8>, next: string, salt: Bytes, nonce: Bytes)
      requires Valid() && row.Some? && dekPlain != inner && dekPlain !in copies && inner !in copies
      requires dekPlain !in raws && dekPlain !in spent
      requires Holds(dekPlain, KeyOf(row.value)) && Holds(inner, KeyOf(row.value))
      modifies this, if dek == null then {} else {dek}
      ensures Valid() && dek == dekPlain
      ensures State() == VaultState(Some(Wrapped(kdf, old(dekPlain[..]), next, salt, nonce)), Some(old(dekPlain[..])))
      ensures copies == old(copies) + {inner, dek} && strays == old(strays) + {inner} && unwraps == old(unwraps) + 1
      ensures derived == old(derived) + [kdf(next, salt)]
      ensures old(raws) <= raws && old(spent) <= spent
      ensures old(dek) != null ==> Zeroed(old(dek))
    {
      var sealed := WrapUnder(dekPlain, next, salt, nonce);
      row := Some(sealed);
      Replace(dekPlain, inner);
    }

    /** Zeroes the buffer in use, if any, and puts the new one in its place. */
    method Replace(dekPlain: array<bv8>, ghost inner: array<bv8>)
      requires Valid() && row.Some? && dekPlain != inner && dekPlain !in copies && inner !in copies
      requires dekPlain !in raws && dekPlain !in spent
      requires Holds(dekPlain, KeyOf(row.value)) && Holds(inner, KeyOf(row.value))
      modifies this`dek, this`copies, this`strays, this`unwraps, if dek == null then {} else {dek}
      ensures Valid() && dek == dekPlain && dek[..] == old(dekPlain[..])
      ensures copies == old(copies) + {inner, dek} && strays == old(strays) + {inner} && unwraps == old(unwraps) + 1
      ensures old(dek) != null ==> Zeroed(old(dek))
    {
      if dek != null {
        Fill(dek);
        assert Zeroed(dek);
      }
      dek := dekPlain;
      copies := copies + {inner, dekPlain};
      strays := strays + {inner};
      unwraps := unwraps + 1;
    }

    method EncryptSecret(plain: Bytes, nonce: Bytes) returns (r: Output)
      ensures (State(), r) == Step(kdf, State(), Encrypt(plain, nonce))
    {
      if dek == null {
        return Failed(Locked);
      }
      r := Cipher(Seal(plain, nonce, dek[..]));
    }

    method DecryptSecret(cipher: Sealed) returns (r: Output)
      ensures (State(), r) == Step(kdf, State(), Decrypt(cipher))
    {
      if dek == null {
        return Failed(Locked);
      }
      match Open(cipher, dek[..])
      case None => r := Failed(BadCiphertext);
      case Some(plain) => r := Plain(plain);
    }

    /** The process ends and starts again: its memory is gone, the stored row is not. */
    method RestartProcess()
      modifies this
      ensures Valid() && copies == {} && strays == {} && unwraps == 0
      ensures derived == [] && raws == [] && spent == []
      ensures State() == Step(kdf, old(State()), Restart).0
    {
      dek := null;
      copies, strays, unwraps := {}, {}, 0;
      derived, raws, spent := [], [], [];
    }
  }

  lemma WrappedIsSealed(wrapped: Sealed, plain: Bytes, kek: Bytes)
    requires forall key :: Open(wrapped, key) == if key == kek then Some(plain) else None
    ensures wrapped == Seal(plain, wrapped.nonce, kek)
  {
    assert Open(wrapped, kek) == Some(plain);
  }

  // ---------------------------------------------------------------- what a lock leaves in memory

  /**
   Any run of calls on the buffers, then a lock. The buffers follow the state
   machine all the way, and after the lock every copy of the key is zero exactly
   when no unlock and no passphrase change has succeeded since the process
   started (a key of zeros aside). Every buffer a key-encryption key was used
   from is zero; all those the keys arrived in are zero exactly when no key but
   zeros was derived since then.
   */
  method RunThenLock(kdf: Kdf, ops: seq<Op>) returns (v: VaultService)
    ensures fresh(v) && v.kdf == kdf && v.Valid()
    ensures v.State() == Step(kdf, Run(kdf, ops).state, Lock).0
    ensures Run(kdf, ops).master.Some? && !Zero(Run(kdf, ops).master.value) ==>
              ((forall a :: a in v.copies ==> Zeroed(a)) <==> Unwraps(kdf, ops) == 0)
    ensures (forall a :: a in v.spent ==> Zeroed(a)) && v.derived == Derived(kdf, ops)
    ensures (forall a :: a in v.raws ==> Zeroed(a)) <==> (forall key :: key in Derived(kdf, ops) ==> Zero(key))
  {
    hide Step, Unwraps, Run, Zero, Derived, DerivedBy;
    RunNothing(kdf);
    v := new VaultService(kdf);
    for i := 0 to |ops|
      invariant fresh(v) && v.kdf == kdf && v.Valid() && (v.dek != null ==> fresh(v.dek))
      invariant v.State() == Run(kdf, ops[..i]).state && v.unwraps == Unwraps(kdf, ops[..i])
      invariant v.derived == Derived(kdf, ops[..i])
    {
      RunNext(kdf, ops[..i], ops[i]);
      assert ops[..i + 1] == ops[..i] + [ops[i]];
      Perform(v, ops[i]);
    }
    assert ops[..|ops|] == ops;
    KeyIsMaster(kdf, ops);
    v.LockVault();
    if v.strays != {} {
      var stray :| stray in v.strays;
      assert stray in v.copies;
    }
    forall i | 0 <= i < |v.raws|
      ensures Zeroed(v.raws[i]) <==> Zero(v.derived[i])
    {
      assert Holds(v.raws[i], v.derived[i]);
    }
  }

  lemma RunNothing(kdf: Kdf)
    ensures Run(kdf, []).state == VaultState(None, None) && Unwraps(kdf, []) == 0 && Derived(kdf, []) == []
  {
  }

  lemma KeyIsMaster(kdf: Kdf, ops: seq<Op>)
    ensures var h := Run(kdf, ops);
            if h.state.row.None? then h.master.None? else h.master == Some(KeyOf(h.state.row.value))
  {
    hide Run;
    RunFaithful(kdf, ops);
  }

  lemma RunNext(kdf: Kdf, ops: seq<Op>, op: Op)
    ensures Run(kdf, ops + [op]).state == Step(kdf, Run(kdf, ops).state, op).0
    ensures Unwraps(kdf, ops + [op]) ==
            if op == Restart then 0
            else Unwraps(kdf, ops) + if Step(kdf, Run(kdf, ops).state, op).1 == Answer(true) then 1 else 0
    ensures Derived(kdf, ops + [op]) ==
            if op == Restart then [] else Derived(kdf, ops) + DerivedBy(kdf, Run(kdf, ops).state, op)
  {
    assert (ops + [op])[..|ops|] == ops;
  }

  /** One call on the buffers. */
  method Perform(v: VaultService, op: Op)
    requires v.Valid()
    modifies v, if v.dek == null then {} else {v.dek}
    ensures v.Valid() && (v.dek != null && v.dek != old(v.dek) ==> fresh(v.dek))
    ensures v.State() == Step(v.kdf, old(v.State()), op).0
    ensures v.unwraps ==
            if op == Restart then 0
            else old(v.unwraps) + if Step(v.kdf, old(v.State()), op).1 == Answer(true) then 1 else 0
    ensures v.derived == if op == Restart then [] else old(v.derived) + DerivedBy(v.kdf, old(v.State()), op)
  {
    match op
    case Init(passphrase, salt, newDek, nonce) => var _ := v.InitVault(passphrase, salt, newDek, nonce);
    case Unlock(passphrase) => var _, _ := v.UnlockVault(passphrase);
    case Lock => v.LockVault();
    case Change(current, next, salt, nonce) => var _, _ := v.ChangePassphrase(current, next, salt, nonce);
    case Encrypt(plain, nonce) => var _ := v.EncryptSecret(plain, nonce);
    case Decrypt(cipher) => var _ := v.DecryptSecret(cipher);
    case Restart => v.RestartProcess();
  }

  /** The shortest such run: set up, start again, unlock once, lock. A buffer still holds the key. */
  method UnlockOnceLeavesKey(kdf: Kdf, passphrase: string, salt: Bytes, newDek: Bytes, nonce: Bytes)
    returns (v: VaultService, ghost left: array<bv8>)
    ensures fresh(v) && v.Valid() && v.dek == null
    ensures left in v.copies && left[..] == newDek
  {
    v := new VaultService(kdf);
    var _ := v.InitVault(passphrase, salt, newDek, nonce);
    v.RestartProcess();
    var r, plain := v.UnlockVault(passphrase);
    assert r == Answer(true);
    v.LockVault();
    left := plain;
  }

  /** One `initVault` is enough for a key-encryption key: set up, lock. A buffer still holds the derived key. */
  method InitLeavesKek(kdf: Kdf, passphrase: string, salt: Bytes, newDek: Bytes, nonce: Bytes)
    returns (v: VaultService, ghost left: array<bv8>)
    ensures fresh(v) && v.Valid() && v.dek == null
    ensures left in v.raws && left[..] == kdf(passphrase, salt)
  {
    v := new VaultService(kdf);
    var _ := v.InitVault(passphrase, salt, newDek, nonce);
    assert v.derived == [kdf(passphrase, salt)];
    v.LockVault();
    left := v.raws[0];
    assert Holds(left, v.derived[0]);
  }
}
