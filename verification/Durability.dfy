/** When the legacy copy of the signing key may be erased. Saves are asynchronous
    and may fail or be superseded; the environment's steps are methods too, so
    `Valid` is an invariant of every interleaving. */
module Durability {
  import opened Common

  /** A signing secret, as a key rather than as text. */
  type Key = seq<nat>

  datatype SaveTicket = SaveTicket(generation: nat, durable: bool)

  /** Whether the newest requested catalog has reached durable storage. */
  class CatalogDurability {
    var confirmed: bool
    var latest: nat
    var required: nat

    constructor Default()
      ensures !confirmed && latest == 0 && required == 0
    {
      confirmed, latest, required := false, 0, 0;
    }

    method RestoredCatalog()
      modifies this
      ensures confirmed && required == 0 && latest == old(latest)
    {
      confirmed, required := true, 0;
    }

    method RequireDurableSave()
      modifies this
      ensures !confirmed && required == latest + 1 && latest == old(latest)
    {
      confirmed := false;
      required := latest + 1;
    }

    method Requested(ticket: SaveTicket)
      modifies this
      ensures required == old(required)
      ensures if ticket.generation < old(latest) then confirmed == old(confirmed) && latest == old(latest)
              else latest == ticket.generation && confirmed == (ticket.durable && latest >= required)
    {
      if ticket.generation < latest {
        return;
      }
      latest := ticket.generation;
      confirmed := ticket.durable && ticket.generation >= required;
    }

    method Saved(generation: nat)
      modifies this
      ensures latest == old(latest) && required == old(required)
      ensures confirmed == (old(confirmed) || (generation == latest && generation >= required))
    {
      if generation == latest && generation >= required {
        confirmed := true;
      }
    }

    method Failed(generation: nat)
      modifies this
      ensures latest == old(latest) && required == old(required)
      ensures confirmed == (old(confirmed) && generation != latest)
    {
      if generation == latest {
        confirmed := false;
      }
    }
  }

  /** What durable storage holds. */
  datatype Store = Absent | Unreadable | Catalog(key: Key)

  datatype LoadResult = Found(store: Store) | NotFound | ReadError

  datatype Event = Loaded(result: LoadResult) | SavedEvent(generation: nat) | SaveFailed(generation: nat)

  function LegacyForSave(confirmed: bool, ready: bool, disabled: bool, corrupt: bool, key: Key): Option<Key> {
    if confirmed && ready && !disabled && !corrupt then None else Some(key)
  }

  datatype Write = Write(generation: nat, key: Key)

  /** How a synchronous native write ends; a failure may come after the file was
      already replaced. */
  datatype NativeOutcome = Written | NotReplaced | ReplacedUncertainly

  /** Nothing is saved before the first load has been processed. */
  ghost predicate LoadOk(
    ready: bool, loading: bool, latest: nat, confirmed: bool, store: Store, inflight: seq<Write>, events: seq<Event>) {
    && (!ready ==> latest == 0 && inflight == [] && !confirmed && forall e :: e in events ==> e.Loaded?)
    && (loading ==> !ready && events == [])
    && (forall e :: e in events && e.Loaded? ==> !ready && events == [e] && Reports(store, e.result))
  }

  lemma QueueShrinks(events: seq<Event>)
    requires events != []
    ensures forall e :: e in events <==> e == events[0] || e in events[1..]
  {
  }

  /** The loaded catalog becomes the session's. */
  predicate Installed(result: LoadResult, installs: bool) {
    result.Found? && result.store.Catalog? && installs
  }

  predicate Reports(store: Store, result: LoadResult) {
    match result
    case Found(s) => s == store && !s.Absent?
    case NotFound => store.Absent?
    case ReadError => true
  }

  /** Writes that may still confirm the current identity carry its key. */
  ghost predicate WritesOk(latest: nat, required: nat, key: Key, inflight: seq<Write>) {
    && (forall w :: w in inflight ==> w.generation <= latest && (w.generation >= required ==> w.key == key))
    && (forall i, j :: 0 <= i < j < |inflight| ==> inflight[i].generation < inflight[j].generation)
  }

  /** A reported save precedes every write still in flight, and the report of the
      newest one means the store holds the current key. */
  ghost predicate SavesOk(
    latest: nat, required: nat, key: Key, store: Store, inflight: seq<Write>, events: seq<Event>) {
    forall e :: e in events && e.SavedEvent? ==>
      && e.generation <= latest
      && (forall w :: w in inflight ==> e.generation < w.generation)
      && (e.generation == latest >= required ==> store == Catalog(key))
  }

  /** The newest save is still travelling, or its outcome waits to be processed. */
  ghost predicate Awaited(latest: nat, inflight: seq<Write>, events: seq<Event>) {
    || (exists w :: w in inflight && w.generation == latest)
    || SavedEvent(latest) in events
    || SaveFailed(latest) in events
  }

  lemma OldestIsLeast(latest: nat, required: nat, key: Key, inflight: seq<Write>)
    requires WritesOk(latest, required, key, inflight) && inflight != []
    ensures WritesOk(latest, required, key, inflight[1..])
    ensures var first := inflight[0];
            && first.generation <= latest && (first.generation >= required ==> first.key == key)
            && (forall w :: w in inflight <==> w == first || w in inflight[1..])
            && (forall w :: w in inflight[1..] ==> first.generation < w.generation)
  {
    var first, rest := inflight[0], inflight[1..];
    assert first in inflight && forall w :: w in inflight <==> w == first || w in rest;
    forall i, j | 0 <= i < j < |rest| ensures rest[i].generation < rest[j].generation {
      assert rest[i] == inflight[i + 1] && rest[j] == inflight[j + 1];
    }
    forall i | 0 <= i < |rest| ensures first.generation < rest[i].generation {
      assert rest[i] == inflight[i + 1];
    }
  }

  /** The oldest write reaches the store and its report is queued. */
  lemma OldestCommits(latest: nat, required: nat, key: Key, store: Store, inflight: seq<Write>, events: seq<Event>)
    requires WritesOk(latest, required, key, inflight) && inflight != []
    requires SavesOk(latest, required, key, store, inflight, events)
    ensures WritesOk(latest, required, key, inflight[1..])
    ensures var queue := events + [SavedEvent(inflight[0].generation)];
            && SavesOk(latest, required, key, Catalog(inflight[0].key), inflight[1..], queue)
            && (Awaited(latest, inflight, events) ==> Awaited(latest, inflight[1..], queue))
  {
    hide WritesOk;
    OldestIsLeast(latest, required, key, inflight);
  }

  /** A write is lost and its failure is queued. */
  lemma OneAborts(latest: nat, required: nat, key: Key, store: Store, inflight: seq<Write>, events: seq<Event>, i: nat)
    requires WritesOk(latest, required, key, inflight) && i < |inflight|
    requires SavesOk(latest, required, key, store, inflight, events)
    ensures var rest := inflight[..i] + inflight[i + 1..];
            var queue := events + [SaveFailed(inflight[i].generation)];
            && WritesOk(latest, required, key, rest) && SavesOk(latest, required, key, store, rest, queue)
            && (Awaited(latest, inflight, events) ==> Awaited(latest, rest, queue))
  {
    var rest := inflight[..i] + inflight[i + 1..];
    assert forall w :: w in rest ==> w in inflight;
    assert forall w :: w in inflight ==> w == inflight[i] || w in rest;
  }

  class Keeper {
    const native: bool
    const durability: CatalogDurability
    var key: Key
    var ready: bool
    var disabled: bool
    var corrupt: bool
    var legacy: Option<Key>
    var events: seq<Event>
    // the environment: durable storage and the transactions in flight, oldest first
    var store: Store
    var inflight: seq<Write>
    ghost var loading: bool
    ghost var erased: bool

    ghost predicate Valid()
      reads this, durability
    {
      && (native ==> inflight == [])
      && LoadOk(ready, loading, durability.latest, durability.confirmed, store, inflight, events)
      && WritesOk(durability.latest, durability.required, key, inflight)
      && SavesOk(durability.latest, durability.required, key, store, inflight, events)
      // a confirmed catalog is the stored one, and no write is on its way
      && (durability.confirmed ==> store == Catalog(key) && inflight == [])
      // a save that ended well is confirmed as soon as its report is processed
      && (ready && !disabled && durability.latest >= durability.required ==>
            durability.confirmed || Awaited(durability.latest, inflight, events))
      // since the legacy copy was erased, all stored and travelling catalogs hold the key
      && (erased ==> ready && legacy.None? && store == Catalog(key) && forall w :: w in inflight ==> w.key == key)
    }

    /** A start-up: the identity comes from the legacy copy or is a fresh one. */
    constructor Launch(native: bool, key: Key, legacy: Option<Key>, store: Store)
      ensures Valid() && this.native == native && this.key == key && this.store == store && !ready && loading
      ensures fresh(durability)
    {
      this.native := native;
      this.key := key;
      this.legacy := legacy;
      this.store := store;
      durability := new CatalogDurability.Default();
      ready, disabled, corrupt := false, false, false;
      events, inflight := [], [];
      loading, erased := true, false;
    }

    // ------------------------------------------------------------------
    // the environment
    // ------------------------------------------------------------------

    /** Reading durable storage ends, one way or another. */
    method FinishLoad(result: LoadResult)
      requires Valid() && loading && Reports(store, result)
      modifies this`events, this`loading
      ensures Valid() && events == [Loaded(result)]
    {
      events := [Loaded(result)];
      loading := false;
    }

    /** Transactions commit in the order they were issued. */
    method CommitOldest()
      requires Valid() && inflight != []
      modifies this`store, this`inflight, this`events
      ensures Valid() && store == Catalog(old(inflight)[0].key) && inflight == old(inflight)[1..]
      ensures events == old(events) + [SavedEvent(old(inflight)[0].generation)]
    {
      OldestCommits(durability.latest, durability.required, key, store, inflight, events);
      assert inflight[0] in inflight && forall w :: w in inflight[1..] ==> w in inflight;
      hide WritesOk, SavesOk, Awaited;
      var write := inflight[0];
      store := Catalog(write.key);
      events := events + [SavedEvent(write.generation)];
      inflight := inflight[1..];
    }

    /** Any transaction may abort. */
    method Abort(i: nat)
      requires Valid() && i < |inflight|
      modifies this`inflight, this`events
      ensures Valid() && inflight == old(inflight[..i] + inflight[i + 1..])
      ensures events == old(events) + [SaveFailed(old(inflight)[i].generation)]
    {
      OneAborts(durability.latest, durability.required, key, store, inflight, events, i);
      assert forall w :: w in inflight[..i] + inflight[i + 1..] ==> w in inflight;
      hide WritesOk, SavesOk, Awaited;
      var write := inflight[i];
      events := events + [SaveFailed(write.generation)];
      inflight := inflight[..i] + inflight[i + 1..];
    }

    // ------------------------------------------------------------------
    // the application
    // ------------------------------------------------------------------

    /** Issue a save of the catalog, which carries the current key. */
    method PersistNow(serializes: bool, outcome: NativeOutcome)
      requires Valid()
      modifies this`store, this`inflight, this`events, durability
      ensures Valid() && durability.required == old(durability.required)
      ensures !ready || disabled || corrupt || !serializes ==>
        unchanged(durability) && store == old(store) && inflight == old(inflight) && events == old(events)
      ensures ready && !disabled && !corrupt && serializes ==>
        && durability.latest == old(durability.latest) + 1
        && if native then
             && inflight == old(inflight)
             && store == (if outcome.NotReplaced? then old(store) else Catalog(key))
             && events == old(events)
                  + [if outcome.Written? then SavedEvent(durability.latest) else SaveFailed(durability.latest)]
             && durability.confirmed == (outcome.Written? && durability.latest >= durability.required)
           else
             && inflight == old(inflight) + [Write(durability.latest, key)]
             && store == old(store) && events == old(events) && !durability.confirmed
    {
      if !ready || disabled || corrupt || !serializes {
        return;
      }
      var generation := durability.latest + 1;
      if native {
        if outcome.Written? {
          store := Catalog(key);
          events := events + [SavedEvent(generation)];
        } else {
          if outcome.ReplacedUncertainly? {
            store := Catalog(key);
          }
          events := events + [SaveFailed(generation)];
        }
        durability.Requested(SaveTicket(generation, outcome.Written?));
      } else {
        inflight := inflight + [Write(generation, key)];
        assert Write(generation, key) in inflight;
        durability.Requested(SaveTicket(generation, false));
      }
    }

    /** Handle the oldest queued event. `installs` says whether a readable catalog
        also installs. */
    method ProcessNext(installs: bool, serializes: bool, outcome: NativeOutcome)
      requires Valid() && events != []
      modifies this`events, this`key, this`ready, this`disabled, this`corrupt, this`store, this`inflight, durability
      ensures Valid() && ready == (old(ready) || old(events)[0].Loaded?)
      ensures key == if old(events)[0].Loaded? && Installed(old(events)[0].result, installs)
                     then old(events)[0].result.store.key else old(key)
      ensures corrupt == (old(corrupt)
        || (old(events)[0].Loaded? && old(events)[0].result.Found? && !Installed(old(events)[0].result, installs)))
      ensures disabled == match old(events)[0]
                          case Loaded(result) => old(disabled) || result.ReadError?
                          case SavedEvent(_) => old(disabled)
                          case SaveFailed(generation) => old(disabled) || generation == durability.latest
      ensures !old(events)[0].Loaded? ==>
        && events == old(events)[1..] && store == old(store) && inflight == old(inflight)
        && durability.latest == old(durability.latest)
      ensures old(events)[0].Loaded? && Installed(old(events)[0].result, installs) ==> durability.confirmed
      ensures old(events)[0].Loaded? && !Installed(old(events)[0].result, installs) ==>
        durability.required == old(durability.latest) + 1
      ensures old(events)[0].Loaded? ==>
        var first := old(events)[0].result.NotFound? && !old(disabled) && !old(corrupt) && serializes;
        durability.latest == old(durability.latest) + if first then 1 else 0
      ensures old(events)[0].SavedEvent? ==>
        var generation := old(events)[0].generation;
        durability.confirmed ==
          (old(durability.confirmed) || (generation == durability.latest && generation >= durability.required))
      ensures old(events)[0].SaveFailed? ==>
        durability.confirmed == (old(durability.confirmed) && old(events)[0].generation != durability.latest)
    {
      var event := events[0];
      match event {
        case Loaded(result) =>
          HandleLoad(result, installs, serializes, outcome);
        case SavedEvent(generation) =>
          HandleSaved(generation);
        case SaveFailed(generation) =>
          HandleFailure(generation);
      }
    }

    method HandleLoad(result: LoadResult, installs: bool, serializes: bool, outcome: NativeOutcome)
      requires Valid() && events != [] && events[0] == Loaded(result)
      modifies this`events, this`key, this`ready, this`disabled, this`corrupt, this`store, this`inflight, durability
      ensures Valid() && ready && disabled == (old(disabled) || result.ReadError?)
      ensures key == if Installed(result, installs) then result.store.key else old(key)
      ensures corrupt == (old(corrupt) || (result.Found? && !Installed(result, installs)))
      ensures Installed(result, installs) ==> durability.confirmed
      ensures !Installed(result, installs) ==> durability.required == old(durability.latest) + 1
      ensures durability.latest == old(durability.latest)
        + if result.NotFound? && !old(disabled) && !old(corrupt) && serializes then 1 else 0
    {
      assert events[0] in events && Loaded(result) in events;
      events := events[1..];
      ready := true;
      match result {
        case Found(found) =>
          if found.Catalog? && installs {
            key := found.key;
            durability.RestoredCatalog();
          } else {
            durability.RequireDurableSave();
            corrupt := true;
          }
        case NotFound =>
          durability.RequireDurableSave();
          PersistNow(serializes, outcome);
        case ReadError =>
          disabled := true;
          durability.RequireDurableSave();
      }
    }

    method HandleSaved(generation: nat)
      requires Valid() && events != [] && events[0] == SavedEvent(generation)
      modifies this`events, durability
      ensures Valid() && events == old(events)[1..] && durability.latest == old(durability.latest)
      ensures durability.confirmed ==
        (old(durability.confirmed) || (generation == durability.latest && generation >= durability.required))
    {
      QueueShrinks(events);
      assert inflight != [] ==> inflight[0] in inflight;
      events := events[1..];
      durability.Saved(generation);
    }

    method HandleFailure(generation: nat)
      requires Valid() && events != [] && events[0] == SaveFailed(generation)
      modifies this`events, this`disabled, durability
      ensures Valid() && events == old(events)[1..] && durability.latest == old(durability.latest)
      ensures disabled == (old(disabled) || generation == durability.latest)
      ensures durability.confirmed == (old(durability.confirmed) && generation != durability.latest)
    {
      QueueShrinks(events);
      events := events[1..];
      durability.Failed(generation);
      if generation == durability.latest {
        disabled := true;
      }
    }

    /** Import another signing key; the interface allows it only once storage has
        been read and is not waiting for recovery. */
    method ImportKey(imported: Key, serializes: bool, outcome: NativeOutcome)
      requires Valid() && ready && !corrupt
      modifies this`key, this`erased, this`store, this`inflight, this`events, durability
      ensures Valid() && key == imported && !erased
      ensures durability.required == old(durability.latest) + 1
      ensures durability.latest == old(durability.latest) + if !disabled && serializes then 1 else 0
    {
      durability.RequireDurableSave();
      key := imported;
      erased := false;
      PersistNow(serializes, outcome);
    }

    /** Give up on an unreadable catalog after copying it. */
    method StartFresh(serializes: bool, outcome: NativeOutcome)
      requires Valid() && ready && corrupt
      modifies this`corrupt, this`store, this`inflight, this`events, durability
      ensures Valid() && !corrupt
      ensures durability.latest == old(durability.latest) + if !disabled && serializes then 1 else 0
    {
      corrupt := false;
      PersistNow(serializes, outcome);
    }

    /** The frame's save hook. It erases the legacy copy only when durable storage
        already holds a catalog with the current key, and otherwise keeps it. */
    method Save(serializes: bool, outcome: NativeOutcome)
      requires Valid()
      modifies this`legacy, this`erased, this`store, this`inflight, this`events, durability
      ensures Valid()
      ensures legacy == None || legacy == Some(key)
      ensures legacy.None? ==> store == Catalog(key) && old(store) == Catalog(key)
      ensures legacy.None? <==> old(durability.confirmed && ready && !disabled && !corrupt)
      ensures durability.latest == old(durability.latest)
        + if ready && !disabled && !corrupt && serializes then 1 else 0
    {
      var kept := LegacyForSave(durability.confirmed, ready, disabled, corrupt, key);
      PersistNow(serializes, outcome);
      legacy := kept;
      erased := kept.None?;
    }

    /** Once every outcome has been processed and none failed, the legacy copy is
        certain to be erased by the next save. */
    lemma QuietStoreIsConfirmed()
      requires Valid() && ready && !disabled && !corrupt
      requires inflight == [] && events == [] && durability.latest >= durability.required
      ensures LegacyForSave(durability.confirmed, ready, disabled, corrupt, key).None?
    {
    }
  }
}
