/** The per-day cache of the transaction history export. */
module ExportCache {

  datatype Key = Key(address: string, day: int)

  datatype Entry = Entry(id: string)

  /** The history at some moment: the current day, and what a query for a day would give. */
  datatype World = World(today: int, entries: Key -> seq<Entry>)

  /** Stored day files, and flags for days without history. */
  datatype Cache = Cache(partials: map<Key, seq<Entry>>, noHistory: set<Key>)

  const EMPTY := Cache(map[], {})

  /** What is past no longer changes. */
  ghost predicate Later(w: World, w': World) {
    && w.today <= w'.today
    && forall k: Key | k.day < w.today :: w'.entries(k) == w.entries(k)
  }

  /** The freshly computed entries of all days of the interval. */
  ghost function Fresh(w: World, address: string, first: int, last: int): seq<Entry>
    decreases last - first
  {
    if last < first then [] else Fresh(w, address, first, last - 1) + w.entries(Key(address, last))
  }

  /** The days of an interval come one after the other. */
  lemma {:induction false} FreshSplits(w: World, address: string, first: int, mid: int, last: int)
    requires first <= mid + 1 && mid <= last
    ensures Fresh(w, address, first, last)
            == Fresh(w, address, first, mid) + Fresh(w, address, mid + 1, last)
    ensures Fresh(w, address, first, first) == w.entries(Key(address, first))
    decreases last - mid
  {
    if mid < last {
      FreshSplits(w, address, first, mid, last - 1);
    }
  }

  // ---- One day ----

  function DayOutput(cache: Cache, w: World, k: Key): seq<Entry> {
    if k in cache.noHistory then []
    else if k in cache.partials then cache.partials[k]
    else w.entries(k)
  }

  function AfterDay(cache: Cache, w: World, k: Key): Cache {
    if k in cache.noHistory || k in cache.partials || k.day == w.today then cache
    else if w.entries(k) != [] then cache.(partials := cache.partials[k := w.entries(k)])
    else cache.(noHistory := cache.noHistory + {k})
  }

  // ---- An interval ----

  ghost function Output(cache: Cache, w: World, address: string, first: int, last: int): seq<Entry>
    decreases last - first
  {
    if last < first then []
    else Output(cache, w, address, first, last - 1) + DayOutput(cache, w, Key(address, last))
  }

  ghost function AfterExport(cache: Cache, w: World, address: string, first: int, last: int): Cache
    decreases last - first
  {
    if last < first then cache
    else AfterDay(AfterExport(cache, w, address, first, last - 1), w, Key(address, last))
  }

  ghost predicate SameAt(a: Cache, b: Cache, k: Key) {
    && (k in a.noHistory <==> k in b.noHistory)
    && (k in a.partials <==> k in b.partials)
    && (k in a.partials ==> a.partials[k] == b.partials[k])
  }

  lemma {:induction false} OtherDaysUntouched(cache: Cache, w: World, address: string, first: int,
                                              last: int, k: Key)
    requires k.address != address || k.day < first || last < k.day
    ensures SameAt(AfterExport(cache, w, address, first, last), cache, k)
    decreases last - first
  {
    if first <= last {
      OtherDaysUntouched(cache, w, address, first, last - 1, k);
    }
  }

  class Exporter {
    var cache: Cache

    constructor ()
      ensures cache == EMPTY
    {
      cache := EMPTY;
    }

    /** The loop over the days. Accounts without any activity are not looked at. */
    method Export(w: World, address: string, active: bool, first: int, last: int)
      returns (all: seq<Entry>)
      modifies this
      ensures !active ==> all == [] && cache == old(cache)
      ensures active ==> all == Output(old(cache), w, address, first, last)
      ensures active ==> cache == AfterExport(old(cache), w, address, first, last)
    {
      all := [];
      if active && first <= last {
        for day := first to last + 1
          invariant all == Output(old(cache), w, address, first, day - 1)
          invariant cache == AfterExport(old(cache), w, address, first, day - 1)
        {
          var k := Key(address, day);
          OtherDaysUntouched(old(cache), w, address, first, day - 1, k);
          if k in cache.noHistory {
            continue;
          }
          if k in cache.partials {
            all := all + cache.partials[k];
            continue;
          }
          var entriesForDay := w.entries(k);
          if day != w.today {
            if |entriesForDay| > 0 {
              cache := cache.(partials := cache.partials[k := entriesForDay]);
            } else {
              cache := cache.(noHistory := cache.noHistory + {k});
            }
          }
          all := all + entriesForDay;
        }
      }
    }

    /** Expiry of day files and flags, whichever they are. */
    method Purge(files: set<Key>, flags: set<Key>)
      modifies this
      ensures cache == Purged(old(cache), files, flags)
    {
      cache := Cache(cache.partials - files, cache.noHistory - flags);
    }
  }

  function Purged(cache: Cache, files: set<Key>, flags: set<Key>): Cache {
    Cache(cache.partials - files, cache.noHistory - flags)
  }

  // ---- Safety over whole runs ----

  /** Day files and flags are about the past, and true. */
  ghost predicate Sound(cache: Cache, w: World) {
    && (forall k | k in cache.partials ::
          k.day < w.today && cache.partials[k] == w.entries(k))
    && (forall k | k in cache.noHistory :: k.day < w.today && w.entries(k) == [])
  }

  lemma {:induction false} SoundOutputIsFresh(cache: Cache, w: World, address: string, first: int,
                                              last: int)
    requires Sound(cache, w)
    ensures Output(cache, w, address, first, last) == Fresh(w, address, first, last)
    decreases last - first
  {
    if first <= last {
      SoundOutputIsFresh(cache, w, address, first, last - 1);
    }
  }

  lemma {:induction false} ExportKeepsSound(cache: Cache, w: World, address: string, first: int,
                                            last: int)
    requires Sound(cache, w) && last <= w.today
    ensures Sound(AfterExport(cache, w, address, first, last), w)
    decreases last - first
  {
    if first <= last {
      ExportKeepsSound(cache, w, address, first, last - 1);
    }
  }

  lemma LaterKeepsSound(cache: Cache, w: World, w': World)
    requires Sound(cache, w) && Later(w, w')
    ensures Sound(cache, w')
  {
  }

  datatype Step =
    | Export(address: string, first: int, last: int)
    | Purge(files: set<Key>, flags: set<Key>)
    | TimePasses(world: World)

  datatype State = State(cache: Cache, world: World)

  ghost predicate Allowed(s: State, step: Step) {
    match step
    case Export(_, _, last) => last <= s.world.today
    case Purge(_, _) => true
    case TimePasses(w) => Later(s.world, w)
  }

  ghost function Apply(s: State, step: Step): State {
    match step
    case Export(address, first, last) =>
      s.(cache := AfterExport(s.cache, s.world, address, first, last))
    case Purge(files, flags) => s.(cache := Purged(s.cache, files, flags))
    case TimePasses(w) => s.(world := w)
  }

  ghost function Run(w: World, steps: seq<Step>): State {
    if steps == [] then State(EMPTY, w)
    else Apply(Run(w, steps[..|steps| - 1]), steps[|steps| - 1])
  }

  ghost predicate AllAllowed(w: World, steps: seq<Step>) {
    forall i | 0 <= i < |steps| :: Allowed(Run(w, steps[..i]), steps[i])
  }

  /** After any run of exports up to the current day, expiries and passing time, the cache is sound
      and every export lists exactly the freshly computed entries. */
  lemma {:induction false} EveryRunIsTransparent(w: World, steps: seq<Step>)
    requires AllAllowed(w, steps)
    ensures Sound(Run(w, steps).cache, Run(w, steps).world)
    ensures
      var s := Run(w, steps);
      forall address, first, last ::
        Output(s.cache, s.world, address, first, last) == Fresh(s.world, address, first, last)
  {
    if steps != [] {
      var init, step := steps[..|steps| - 1], steps[|steps| - 1];
      assert forall i | 0 <= i < |init| :: init[..i] == steps[..i];
      EveryRunIsTransparent(w, init);
      var s := Run(w, init);
      assert Allowed(s, step);
      match step
      case Export(address, first, last) => ExportKeepsSound(s.cache, s.world, address, first, last);
      case Purge(_, _) =>
      case TimePasses(w') => LaterKeepsSound(s.cache, s.world, w');
    }
    var s := Run(w, steps);
    forall address, first, last
      ensures Output(s.cache, s.world, address, first, last) == Fresh(s.world, address, first, last)
    {
      SoundOutputIsFresh(s.cache, s.world, address, first, last);
    }
  }

  // ---- Intervals that reach into the future ----

  /** However history goes on, the cache will not be at odds with it. */
  ghost predicate SafeForever(cache: Cache, w: World) {
    forall w', k: Key | Later(w, w') && k.day <= w'.today ::
      DayOutput(cache, w', k) == w'.entries(k)
  }

  lemma SoundIsSafeForever(cache: Cache, w: World)
    requires Sound(cache, w)
    ensures SafeForever(cache, w)
  {
    forall w', k: Key | Later(w, w') && k.day <= w'.today
      ensures DayOutput(cache, w', k) == w'.entries(k)
    {
      LaterKeepsSound(cache, w, w');
    }
  }

  predicate Stored(cache: Cache, k: Key) {
    k in cache.partials || k in cache.noHistory
  }

  lemma {:induction false} FutureDayIsStored(cache: Cache, w: World, address: string, first: int,
                                             last: int, k: Key)
    requires k == Key(address, k.day) && first <= k.day <= last && k.day > w.today
    requires !Stored(cache, k)
    ensures Stored(AfterExport(cache, w, address, first, last), k)
    decreases last - first
  {
    if k.day < last {
      FutureDayIsStored(cache, w, address, first, last - 1, k);
    }
  }

  /** An export stores every day of its interval but the current one: as a file if there is history,
      as a flag if not. */
  lemma {:induction false} ExportStoresDays(cache: Cache, w: World, address: string, first: int,
                                            last: int, day: int)
    requires first <= day <= last && day != w.today
    ensures Stored(AfterExport(cache, w, address, first, last), Key(address, day))
    ensures !Stored(cache, Key(address, day)) ==>
      var after := AfterExport(cache, w, address, first, last);
      && (Key(address, day) in after.noHistory <==> w.entries(Key(address, day)) == [])
      && (Key(address, day) in after.partials <==> w.entries(Key(address, day)) != [])
    decreases last - first
  {
    if day < last {
      ExportStoresDays(cache, w, address, first, last - 1, day);
    } else {
      OtherDaysUntouched(cache, w, address, first, last - 1, Key(address, day));
    }
  }

  lemma {:induction false} StoredIsCurrent(cache: Cache, w: World, address: string, first: int,
                                           last: int, k: Key)
    requires !Stored(cache, k)
    ensures DayOutput(AfterExport(cache, w, address, first, last), w, k) == w.entries(k)
    decreases last - first
  {
    if first <= last {
      StoredIsCurrent(cache, w, address, first, last - 1, k);
    }
  }

  /** An export keeps the cache right for every future if and only if it does not go beyond the
      current day: a day yet to come is stored as it looks now. */
  lemma SafeForeverIff(cache: Cache, w: World, address: string, first: int, last: int)
    requires Sound(cache, w)
    ensures SafeForever(AfterExport(cache, w, address, first, last), w)
            <==> (last < first || last <= w.today)
  {
    var after := AfterExport(cache, w, address, first, last);
    if last < first || last <= w.today {
      if first <= last { ExportKeepsSound(cache, w, address, first, last); }
      SoundIsSafeForever(after, w);
    } else {
      var k := Key(address, last);
      FutureDayIsStored(cache, w, address, first, last, k);
      StoredIsCurrent(cache, w, address, first, last, k);
      var busier := World(last, (j: Key) => if j == k then w.entries(k) + [Entry("")]
                                          else w.entries(j));
      assert Later(w, busier);
      assert DayOutput(after, busier, k) == w.entries(k);
    }
  }
}
