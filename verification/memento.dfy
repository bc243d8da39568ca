/** The in-memory store of one item's last-update time. */
module Memento {
  import opened Outcomes

  /** What an `InMemoryUpdateDatetimeMemento` holds: the last stored time, if any. */
  datatype InMemoryMemento = InMemoryMemento(stored: Option<int>)

  /** A fresh memento holds no time yet. */
  function NewMemento(): (m: InMemoryMemento)
    ensures Load(m) == None
  {
    InMemoryMemento(None)
  }

  /** Stores a time, replacing whatever was stored before. */
  function Store(m: InMemoryMemento, t: int): (r: InMemoryMemento)
    ensures Load(r) == Some(t)
  {
    m.(stored := Some(t))
  }

  /** Loads the stored time; loading is a pure read. Nothing is loaded
      exactly from a memento nothing was ever stored in. */
  function Load(m: InMemoryMemento): (r: Option<int>)
    ensures r.None? <==> m == InMemoryMemento(None)
  {
    m.stored
  }

  /** A later store overwrites an earlier one completely. */
  lemma StoreOverwrites(m: InMemoryMemento, t1: int, t2: int)
    ensures Store(Store(m, t1), t2) == Store(m, t2)
    ensures Load(Store(Store(m, t1), t2)) == Some(t2)
  {
  }

  /** Storing back the value just loaded changes nothing. */
  lemma StoreLoadedIsIdentity(m: InMemoryMemento)
    requires Load(m).Some?
    ensures Store(m, Load(m).value) == m
  {
  }
}
