/** The lock word: lock bit, vacancy bitmap and maximum index in 64 bits, taken by a masked compare-and-swap that
    overwrites all of them. */
module LockWord {
  import opened LockFields

  const ALL_ONES: Word := !0

  /** Masked compare-and-swap: the bits under `compareMask` must match, the bits under `swapMask` are replaced. */
  predicate Matches(w: Word, equal: Word, compareMask: Word) {
    w & compareMask == equal & compareMask
  }

  function Swapped(w: Word, val: Word, swapMask: Word): Word {
    (w & !swapMask) | (val & swapMask)
  }

  /** `lock_node` compares the lock bit with 0 and swaps in all ones. */
  lemma LockSwap(w: Word)
    ensures Matches(w, 0, LOCK_BIT) <==> !Locked(w)
    ensures Swapped(w, ALL_ONES, ALL_ONES) == ALL_ONES && Locked(ALL_ONES)
  {}

  // ---- the retry loop ----

  /** What round j loads: what others have written by then. */
  function LoadedIn(others: seq<Word>, j: nat): Word
    requires 2 * j + 1 < |others|
  {
    others[2 * j]
  }

  /** Nobody changes the word between the load and the swap of round j. */
  predicate Quiet(others: seq<Word>, j: nat)
    requires 2 * j + 1 < |others|
  {
    others[2 * j + 1] == LoadedIn(others, j)
  }

  /** Round j is the first that is quiet, and every round up to it loads a matching word. */
  predicate SwapsIn(others: seq<Word>, equal: Word, compareMask: Word, j: nat)
    requires 2 * j + 1 < |others|
  {
    && Quiet(others, j)
    && (forall i :: 0 <= i <= j ==> Matches(LoadedIn(others, i), equal, compareMask))
    && forall i :: 0 <= i < j ==> !Quiet(others, i)
  }

  /** A word of shared memory, as one client sees it.  `writes` logs what this client itself has written. */
  class SharedWord {
    var word: Word
    ghost var writes: seq<(Word, Word)>

    constructor (w: Word)
      ensures word == w && writes == []
    {
      word, writes := w, [];
    }

    /** Anything other clients may do in between. */
    method Interfere(w: Word)
      modifies this`word
      ensures word == w
    {
      word := w;
    }

    /** The hardware compare-and-swap. */
    method CompareAndSwap(expected: Word, val: Word) returns (ok: bool)
      modifies this
      ensures ok <==> old(word) == expected
      ensures ok ==> word == val && writes == old(writes) + [(expected, val)]
      ensures !ok ==> word == old(word) && writes == old(writes)
    {
      ok := word == expected;
      if ok {
        word := val;
        writes := writes + [(expected, val)];
      }
    }

    /** `cas_mask_internal`, others writing `others` in between: it refines one atomic masked compare-and-swap.  It
        succeeds exactly when a round comes in which the word matches and nobody writes between load and swap, no earlier
        round having found a word that does not match.  Then it wrote once, replacing that word by the swapped one;
        otherwise it wrote nothing, and unless it gave up, the word it returns did not match. */
    method CasMask(equal: Word, val: Word, compareMask: Word, swapMask: Word, retries: nat, others: seq<Word>)
      returns (ok: bool, result: Word)
      requires |others| == 2 * retries
      modifies this
      ensures ok <==> exists j :: 0 <= j < retries && SwapsIn(others, equal, compareMask, j)
      ensures forall j :: 0 <= j < retries && SwapsIn(others, equal, compareMask, j) ==> result == LoadedIn(others, j)
      ensures ok ==> Matches(result, equal, compareMask) && word == Swapped(result, val, swapMask)
      ensures ok ==> writes == old(writes) + [(result, Swapped(result, val, swapMask))]
      ensures !ok ==> writes == old(writes)
      ensures !ok && Matches(result, equal, compareMask) ==> result == word
    {
      for retry := 0 to retries
        invariant writes == old(writes)
        invariant forall i :: 0 <= i < retry ==> !Quiet(others, i) && Matches(LoadedIn(others, i), equal, compareMask)
      {
        Interfere(others[2 * retry]);
        var current := word;
        assert current == LoadedIn(others, retry);
        if !Matches(current, equal, compareMask) {
          return false, current;
        }
        Interfere(others[2 * retry + 1]);
        ok := CompareAndSwap(current, Swapped(current, val, swapMask));
        if ok {
          assert SwapsIn(others, equal, compareMask, retry);
          return true, current;
        }
      }
      return false, word;
    }
  }

  // ---- any number of clients ----

  /** A client between the load and the swap of its lock attempt, or holding the node with the word it will write back.
      `taken` is the word it found when it took the lock. */
  datatype Client = Idle | Loaded(current: Word) | Holding(buffer: Word, taken: Word)

  /** `published` is the word last written by an unlock, or the one the node was created with. */
  datatype System = System(word: Word, published: Word, clients: seq<Client>)

  datatype Step =
    | Lock(c: nat)
    | Load(c: nat)
    | Swap(c: nat)
    | Update(c: nat, fields: Fields)
    | Unlock(c: nat)

  /** One atomic action of client c.  `Lock` is the RDMA verb; `Load` and `Swap` are its CXL emulation.
      A holder changes its buffer through the bit-fields only. */
  ghost predicate TakesStep(s: System, s': System, a: Step) {
    a.c < |s.clients| && (
    match a
    case Lock(c) => s.clients[c].Idle? && (
      if Matches(s.word, 0, LOCK_BIT)
      then s' == s.(word := Swapped(s.word, ALL_ONES, ALL_ONES), clients := s.clients[c := Holding(s.word, s.word)])
      else s' == s)
    case Load(c) => s.clients[c].Idle? && s' == s.(clients := s.clients[c := Loaded(s.word)])
    case Swap(c) => s.clients[c].Loaded? && (
      var current := s.clients[c].current;
      if Matches(current, 0, LOCK_BIT) && s.word == current
      then s' == s.(word := Swapped(current, ALL_ONES, ALL_ONES), clients := s.clients[c := Holding(current, current)])
      else s' == s.(clients := s.clients[c := Idle]))
    case Update(c, fields) => s.clients[c].Holding? && Fit(fields) && (
      s' == s.(clients := s.clients[c := s.clients[c].(buffer := WordOf(fields))]))
    case Unlock(c) =>
      s.clients[c].Holding? && Unlocks(s, s', c, s.clients[c].buffer))
  }

  ghost predicate Unlocks(s: System, s': System, c: nat, buffer: Word)
    requires c < |s.clients|
  {
    s' == s.(word := buffer, published := buffer, clients := s.clients[c := Idle])
  }

  ghost predicate Next(s: System, s': System) {
    s == s' || exists a :: TakesStep(s, s', a)
  }

  /** At most one client holds the node.  While one does, the word in memory is all ones and the holder took exactly the
      published word; while none does, memory holds the published word.  Published words and buffers are unlocked. */
  ghost predicate Inv(s: System) {
    && !Locked(s.published)
    && (forall c :: 0 <= c < |s.clients| && s.clients[c].Holding? ==>
          s.word == ALL_ONES && !Locked(s.clients[c].buffer) && s.clients[c].taken == s.published)
    && (forall c, d :: 0 <= c < d < |s.clients| ==> !(s.clients[c].Holding? && s.clients[d].Holding?))
    && ((forall c :: 0 <= c < |s.clients| ==> !s.clients[c].Holding?) ==> s.word == s.published)
  }

  ghost predicate Init(s: System) {
    && (exists fields :: Fit(fields) && s.published == WordOf(fields))
    && s.word == s.published
    && forall c :: 0 <= c < |s.clients| ==> s.clients[c].Idle?
  }

  lemma InitInv(s: System)
    requires Init(s)
    ensures Inv(s)
  {
    hide WordOf, Locked;
    var fields :| Fit(fields) && s.published == WordOf(fields);
    WordShows(fields);
  }

  /** A client that takes the lock does so when nobody holds it, and finds the published word. */
  lemma TakeInv(s: System, s': System, c: nat)
    requires Inv(s) && c < |s.clients| && !s.clients[c].Holding? && !Locked(s.word)
    requires s' == s.(word := ALL_ONES, clients := s.clients[c := Holding(s.word, s.word)])
    ensures Inv(s')
  {
    LockSwap(s.word);
    assert forall d :: 0 <= d < |s.clients| ==> !s.clients[d].Holding?;
    assert s'.clients[c].Holding?;
  }

  lemma StepInv(s: System, s': System, a: Step)
    requires Inv(s) && TakesStep(s, s', a)
    ensures Inv(s')
  {
    LockSwap(s.word);
    match a
    case Lock(c) => if !Locked(s.word) { TakeInv(s, s', c); }
    case Load(c) => KeepHolders(s, s', c, Loaded(s.word));
    case Swap(c) =>
      LockSwap(s.clients[c].current);
      if s' == s.(clients := s.clients[c := Idle]) { KeepHolders(s, s', c, Idle); } else { TakeInv(s, s', c); }
    case Update(c, fields) => UpdateInv(s, s', c, fields);
    case Unlock(c) => UnlockInv(s, s', c);
  }

  lemma KeepHolders(s: System, s': System, c: nat, x: Client)
    requires Inv(s) && c < |s.clients| && !s.clients[c].Holding?
    requires !x.Holding? && s' == s.(clients := s.clients[c := x])
    ensures Inv(s')
  {
    assert forall d :: 0 <= d < |s.clients| ==> (s'.clients[d].Holding? <==> s.clients[d].Holding?);
  }

  lemma UpdateInv(s: System, s': System, c: nat, fields: Fields)
    requires Inv(s) && TakesStep(s, s', Update(c, fields))
    ensures Inv(s')
  {
    hide WordOf, Locked;
    WordShows(fields);
    assert forall d :: 0 <= d < |s.clients| ==> (s'.clients[d].Holding? <==> s.clients[d].Holding?);
    assert s'.clients[c].Holding?;
  }

  lemma UnlockInv(s: System, s': System, c: nat)
    requires Inv(s) && TakesStep(s, s', Unlock(c))
    ensures Inv(s')
  {
    forall d | 0 <= d < |s.clients| ensures !s'.clients[d].Holding? {}
  }

  ghost predicate Run(states: seq<System>) {
    && states != [] && Init(states[0])
    && forall i :: 0 <= i < |states| - 1 ==> Next(states[i], states[i + 1])
  }

  /** Mutual exclusion, and no metadata lost, in every state of every run. */
  lemma {:induction false} RunInv(states: seq<System>, i: nat)
    requires Run(states) && i < |states|
    ensures Inv(states[i])
  {
    if i == 0 {
      InitInv(states[0]);
    } else {
      RunInv(states, i - 1);
      assert Next(states[i - 1], states[i - 1 + 1]);
      if states[i - 1] != states[i] {
        var a :| TakesStep(states[i - 1], states[i], a);
        StepInv(states[i - 1], states[i], a);
      }
    }
  }

  // ---- what one holder leaves is what the next one finds ----

  /** The fields written last, going by the updates alone. */
  function LastFields(first: Fields, steps: seq<Step>): Fields {
    if steps == [] then first
    else if steps[|steps| - 1].Update? then steps[|steps| - 1].fields
    else LastFields(first, steps[..|steps| - 1])
  }

  /** A holder's buffer, or the word itself when nobody holds the node, shows the fields f. */
  ghost predicate Shows(s: System, f: Fields) {
    && Fit(f)
    && (forall c :: 0 <= c < |s.clients| && s.clients[c].Holding? ==> s.clients[c].buffer == WordOf(f))
    && ((forall c :: 0 <= c < |s.clients| ==> !s.clients[c].Holding?) ==> s.word == WordOf(f))
  }

  lemma TakeShows(s: System, s': System, c: nat, f: Fields)
    requires Inv(s) && Shows(s, f) && c < |s.clients| && !s.clients[c].Holding? && !Locked(s.word)
    requires s' == s.(word := ALL_ONES, clients := s.clients[c := Holding(s.word, s.word)])
    ensures Shows(s', f)
  {
    hide WordOf;
    LockSwap(s.word);
    assert forall d :: 0 <= d < |s.clients| ==> !s.clients[d].Holding?;
    assert s'.clients[c].Holding?;
  }

  lemma StepShows(s: System, s': System, a: Step, f: Fields)
    requires Inv(s) && Shows(s, f) && TakesStep(s, s', a)
    ensures Shows(s', if a.Update? then a.fields else f)
  {
    hide WordOf;
    LockSwap(s.word);
    match a
    case Lock(c) => if !Locked(s.word) { TakeShows(s, s', c, f); }
    case Load(c) => assert forall d :: 0 <= d < |s.clients| ==> (s'.clients[d].Holding? <==> s.clients[d].Holding?);
    case Swap(c) =>
      LockSwap(s.clients[c].current);
      if s' == s.(clients := s.clients[c := Idle]) {
        assert forall d :: 0 <= d < |s.clients| ==> (s'.clients[d].Holding? <==> s.clients[d].Holding?);
      } else {
        TakeShows(s, s', c, f);
      }
    case Update(c, fields) => assert s'.clients[c].Holding?;
    case Unlock(c) =>
  }

  /** A run with its steps, from a node created with the fields f. */
  ghost predicate StepRun(states: seq<System>, steps: seq<Step>, f: Fields) {
    && |states| == |steps| + 1 && Init(states[0]) && Fit(f) && states[0].published == WordOf(f)
    && forall i :: 0 <= i < |steps| ==> TakesStep(states[i], states[i + 1], steps[i])
  }

  lemma {:induction false} StepRunShows(states: seq<System>, steps: seq<Step>, f: Fields, i: nat)
    requires StepRun(states, steps, f) && i < |states|
    ensures Inv(states[i]) && Shows(states[i], LastFields(f, steps[..i]))
  {
    hide Inv, Shows, TakesStep;
    if i == 0 {
      InitInv(states[0]);
      InitShows(states[0], f);
    } else {
      StepRunShows(states, steps, f, i - 1);
      assert TakesStep(states[i - 1], states[i - 1 + 1], steps[i - 1]);
      StepInv(states[i - 1], states[i], steps[i - 1]);
      StepShows(states[i - 1], states[i], steps[i - 1], LastFields(f, steps[..i - 1]));
      assert steps[..i][..i - 1] == steps[..i - 1] && steps[..i][i - 1] == steps[i - 1];
    }
  }

  lemma InitShows(s: System, f: Fields)
    requires Init(s) && Fit(f) && s.published == WordOf(f)
    ensures Shows(s, f)
  {
    hide WordOf;
  }

  /** In every run, whenever nobody holds the node its word shows the fields that the last update of any holder wrote, and a
      client that has just taken it has exactly those in its buffer: overwriting all 64 bits loses nothing. */
  lemma NothingLost(states: seq<System>, steps: seq<Step>, f: Fields, i: nat, c: nat)
    requires StepRun(states, steps, f) && i < |states| && c < |states[i].clients|
    ensures (forall d :: 0 <= d < |states[i].clients| ==> !states[i].clients[d].Holding?) ==>
              Fit(LastFields(f, steps[..i])) && states[i].word == WordOf(LastFields(f, steps[..i]))
    ensures states[i].clients[c].Holding? ==>
              Fit(LastFields(f, steps[..i])) && states[i].clients[c].buffer == WordOf(LastFields(f, steps[..i]))
  {
    hide Inv, WordOf;
    StepRunShows(states, steps, f, i);
  }

  /** A lock that nobody holds is taken by the next client that tries, with the word it finds. */
  lemma FreeLockTaken(s: System, s': System, c: nat)
    requires Inv(s) && TakesStep(s, s', Lock(c)) && forall d :: 0 <= d < |s.clients| ==> !s.clients[d].Holding?
    ensures s'.clients[c] == Holding(s.word, s.word) && Locked(s'.word)
  {
    LockSwap(s.word);
  }

  /** So it is through the emulation, when the word has not changed since the client loaded it. */
  lemma QuietSwapTakes(s: System, s': System, c: nat)
    requires Inv(s) && TakesStep(s, s', Swap(c)) && forall d :: 0 <= d < |s.clients| ==> !s.clients[d].Holding?
    ensures s.clients[c].current == s.word ==> s'.clients[c] == Holding(s.word, s.word) && Locked(s'.word)
    ensures s.clients[c].current != s.word ==> s'.clients[c] == Idle && s'.word == s.word
  {
    LockSwap(s.word);
  }
}
