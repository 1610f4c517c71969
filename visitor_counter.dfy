/** The visitor counter of the commit-log page: the mount-time effect in
    CommitLog/src/App.jsx that reads a durable count and a per-session
    flag, seeds the count, bumps it once per session and displays it. */
module VisitorCounter {
  import opened Wrappers

  /** Key of the count in durable (local) storage. */
  const CountKey: string := "site_visitor_count"
  /** Key of the flag in per-session storage. */
  const SessionKey: string := "hasVisitedSession"
  /** The count an unseeded store starts from. */
  const Seed: int := 500

  /** Both stores at one moment. The durable store holds the count already
      read back as an integer. */
  datatype Stores = Stores(durable: map<string, int>, session: map<string, string>)

  /** What one initialisation displays and leaves in the stores. */
  datatype InitResult = InitResult(displayed: int, stores: Stores)

  /** `sessionStorage.getItem(key)`: the stored string, None for `null`. */
  function GetItem(store: map<string, string>, key: string): (r: Option<string>)
    ensures r.Some? <==> key in store
    ensures r.Some? ==> r.value == store[key]
  {
    if key in store then Some(store[key]) else None
  }

  /** JavaScript truthiness of a `getItem` result: `null` and "" are falsy. */
  predicate Truthy(item: Option<string>)
  {
    item.Some? && item.value != ""
  }

  /** The count as read from durable storage, 0 when the key is absent. */
  function StoredCount(durable: map<string, int>): int
  {
    if CountKey in durable then durable[CountKey] else 0
  }

  /** The count after seeding: an absent or zero count reads as 500, any
      other stored value is kept. */
  function Seeded(durable: map<string, int>): (c: int)
    ensures c != 0
    ensures CountKey !in durable ==> c == Seed
    ensures CountKey in durable ==> c == if durable[CountKey] == 0 then Seed else durable[CountKey]
  {
    var c := StoredCount(durable);
    if c == 0 then Seed else c
  }

  /** The effect as a function of the two stores it finds. */
  function Init(st: Stores): InitResult
  {
    var seeded := Seeded(st.durable);
    if SessionKey !in st.session then
      InitResult(seeded + 1,
        Stores(st.durable[CountKey := seeded + 1], st.session[SessionKey := "true"]))
    else
      InitResult(seeded, st)
  }

  /** The stores hold no count below zero. Starting from such stores the
      page never writes a negative count (InitEstablishesFlag); a stored
      negative count, by contrast, is bumped and written back, still
      negative when it was below -1. */
  predicate NoNegativeCount(st: Stores)
  {
    CountKey in st.durable ==> st.durable[CountKey] >= 0
  }

  /** The two browser stores, each a key-value map updated in place. */
  class Storage {
    var durable: map<string, int>
    var session: map<string, string>

    constructor (durable: map<string, int>, session: map<string, string>)
      ensures this.durable == durable && this.session == session
    {
      this.durable := durable;
      this.session := session;
    }

    function Snapshot(): Stores
      reads this
    {
      Stores(durable, session)
    }

    /** Runs the counter effect against these stores and returns the count
        the page displays. */
    method InitVisitorCount() returns (displayed: int)
      modifies this
      ensures InitResult(displayed, Snapshot()) == Init(old(Snapshot()))
    {
      var isNewSession := GetItem(session, SessionKey).None?;
      var currentCount := if CountKey in durable then durable[CountKey] else 0;
      if currentCount == 0 {
        currentCount := Seed;
      }
      if isNewSession {
        currentCount := currentCount + 1;
        durable := durable[CountKey := currentCount];
        var existingSession := GetItem(session, SessionKey);
        if !Truthy(existingSession) {
          session := session[SessionKey := "true"];
        }
      }
      displayed := currentCount;
    }
  }

  /** A new session bumps the seeded count by one, persists exactly that
      value, sets the session flag to "true" and touches no other key. */
  lemma NewSessionIncrementsOnce(st: Stores)
    requires SessionKey !in st.session
    ensures var r := Init(st);
      && r.displayed == Seeded(st.durable) + 1
      && r.stores.durable == st.durable[CountKey := r.displayed]
      && r.stores.session == st.session[SessionKey := "true"]
  {
  }

  /** A session that already has its flag writes nothing and displays the
      seeded stored count. */
  lemma ReturningSessionWritesNothing(st: Stores)
    requires SessionKey in st.session
    ensures Init(st) == InitResult(Seeded(st.durable), st)
  {
  }

  /** With both stores empty the page displays 501 and persists 501. */
  lemma FirstVisitEver()
    ensures Init(Stores(map[], map[]))
         == InitResult(501, Stores(map[CountKey := 501], map[SessionKey := "true"]))
  {
  }

  /** An absent count in a flagged session still displays 500 and writes
      nothing. */
  lemma FlaggedSessionWithoutCount(session: map<string, string>)
    requires SessionKey in session
    ensures Init(Stores(map[], session)) == InitResult(Seed, Stores(map[], session))
  {
  }

  /** After any initialisation the session is flagged. Starting from stores
      with no negative count, the page writes none either, and the displayed
      count is the seeded stored count of the resulting stores. */
  lemma {:induction false} InitEstablishesFlag(st: Stores)
    ensures SessionKey in Init(st).stores.session
    ensures NoNegativeCount(st) ==> var r := Init(st);
      NoNegativeCount(r.stores) && r.displayed == Seeded(r.stores.durable)
  {
    if NoNegativeCount(st) {
      var seeded := Seeded(st.durable);
      assert seeded > 0;
    }
  }

  /** Whatever the stores hold, negative counts included, a second run in
      the same session writes nothing: the count is never incremented again
      within a session. */
  lemma SecondInitWritesNothing(st: Stores)
    ensures Init(Init(st).stores).stores == Init(st).stores
  {
    InitEstablishesFlag(st);
  }

  /** A stored -5 on a new session is bumped and written back as -4. */
  lemma NegativeCountWrittenBack()
    ensures Init(Stores(map[CountKey := -5], map[])).stores.durable[CountKey] == -4
  {
  }

  /** Running the effect twice in one session increments only once: the
      second run writes nothing (for any stores, SecondInitWritesNothing)
      and, from stores with no negative count, displays the same count. */
  lemma {:induction false} InitTwiceIncrementsOnce(st: Stores)
    requires NoNegativeCount(st)
    ensures Init(Init(st).stores) == Init(st)
  {
    InitEstablishesFlag(st);
    SecondInitWritesNothing(st);
  }

  /** A second run in the same session reproduces the first exactly, display
      included, unless a new session finds a stored -1: that count becomes
      0, which the second run re-seeds. */
  lemma {:induction false} InitTwiceSameUnlessMinusOne(st: Stores)
    ensures Init(Init(st).stores) == Init(st)
        <==> (SessionKey in st.session || StoredCount(st.durable) != -1)
  {
    SecondInitWritesNothing(st);
    if SessionKey !in st.session {
      NewSessionIncrementsOnce(st);
      assert Init(Init(st).stores).displayed == Seeded(Init(st).stores.durable);
    }
  }

  /** Without the no-negative-count condition a second run can differ: a
      stored -1 displays 0, persists 0, and the second run in the same
      session re-seeds and displays 500. */
  lemma InitTwiceWithNegativeCount()
    ensures var st := Stores(map[CountKey := -1], map[]);
      Init(st).displayed == 0 && Init(Init(st).stores).displayed == Seed
  {
  }

  /** `k` successive page loads within one session. */
  function InitRepeated(st: Stores, k: nat): InitResult
    requires k >= 1
    decreases k
  {
    if k == 1 then Init(st) else InitRepeated(Init(st).stores, k - 1)
  }

  /** However often the page loads within one session, the count is bumped
      once: every load after the first displays and leaves what the first did. */
  lemma {:induction false} RepeatedInitsIncrementOnce(st: Stores, k: nat)
    requires k >= 1 && NoNegativeCount(st)
    ensures InitRepeated(st, k) == Init(st)
    decreases k
  {
    if k > 1 {
      InitEstablishesFlag(st);
      RepeatedInitsIncrementOnce(Init(st).stores, k - 1);
      InitTwiceIncrementsOnce(st);
    }
  }

  /** The durable store after `n` page loads, each in a fresh session. */
  function AfterSessions(durable: map<string, int>, n: nat): map<string, int>
    decreases n
  {
    if n == 0 then durable
    else AfterSessions(Init(Stores(durable, map[])).stores.durable, n - 1)
  }

  /** Each fresh session adds exactly one to the seeded count. */
  lemma {:induction false} SessionsAddOneEach(durable: map<string, int>, n: nat)
    requires NoNegativeCount(Stores(durable, map[]))
    requires n >= 1
    ensures CountKey in AfterSessions(durable, n)
    ensures AfterSessions(durable, n)[CountKey] == Seeded(durable) + n
    decreases n
  {
    var next := Init(Stores(durable, map[])).stores.durable;
    assert next[CountKey] == Seeded(durable) + 1;
    if n > 1 {
      assert Seeded(next) == Seeded(durable) + 1;
      SessionsAddOneEach(next, n - 1);
    }
  }

  /** First load 501, a reload in the same session stays at 501, a fresh
      session afterward shows 502. */
  lemma VisitSequenceExample()
    ensures var first := Init(Stores(map[], map[]));
      var reload := Init(first.stores);
      var later := Init(Stores(first.stores.durable, map[]));
      first.displayed == 501 && reload == first &&
      later.displayed == 502 && later.stores.durable[CountKey] == 502
  {
    FirstVisitEver();
    InitTwiceIncrementsOnce(Stores(map[], map[]));
  }
}
