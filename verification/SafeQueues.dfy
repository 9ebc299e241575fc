/** Which queues never wait forever for the swap of a full cache. */
module SafeQueues {
  import opened Bytes
  import opened Layout
  import opened Records
  import opened MmapQueue
  import opened Interleaving
  import opened Residency
  import opened Hangs
  import opened SmallCaches

  /** No run of the queue comes to a step that has to get a segment and waits forever for the swap. */
  ghost predicate Safe(cfg: Config) {
    forall y: System :: !HangsAt(cfg, y)
  }

  /** Segments of whole words, as Adjusted makes them, and events of one byte at least. If an event may
      fill a segment, not every ring is decided, but only those of at most twice the limit less two;
      and, with room for the longest event, those that are nearly three times as large as the cache,
      and those of twice the limit less one if an event may fill all but one of the segments that can
      be mapped, or of twice the limit if that is at most seven. */
  ghost predicate Decided(cfg: Config)
    requires cfg.Valid()
  {
    && cfg.g.size >= 128 && cfg.g.size % WORD == 0 && cfg.maxEventSize >= 1
    && (Short(cfg) || cfg.g.count + 2 <= 2 * cfg.maxInMem || Leaky(cfg) || TakesLong(cfg) || Small(cfg))
  }

  /** Those queues are safe exactly if all segments are at most twice as many as can be mapped, less
      two; or if events are short, and at least eight segments can be mapped or more than half. */
  lemma SafeIff(cfg: Config)
    requires cfg.Valid() && Decided(cfg)
    ensures Safe(cfg) <==> Spacious(cfg)
  {
    if Spacious(cfg) {
      forall y: System
        ensures !HangsAt(cfg, y)
      {
        if HangsAt(cfg, y) {
          var ys: seq<System>, acts: seq<Action> :| IsRun(cfg, ys, acts) && ys[|acts|] == y;
          NeverHangs(cfg, ys, acts, |acts|);
        }
      }
    } else {
      var y := SomeRunHangs(cfg);
    }
  }

  /** If events are short, that decides every ring. */
  lemma ShortSafeIff(cfg: Config)
    requires cfg.Valid() && cfg.g.size >= 128 && cfg.g.size % WORD == 0 && cfg.maxEventSize >= 1 && Short(cfg)
    ensures Safe(cfg) <==> cfg.maxInMem >= 8 || cfg.g.count < 2 * cfg.maxInMem
  {
    SafeIff(cfg);
  }

  /** In a ring of three times the limit, with room for the longest event, it decides all events. */
  lemma WideSafeIff(cfg: Config)
    requires cfg.Valid() && cfg.g.size >= 128 && cfg.g.size % WORD == 0 && cfg.maxEventSize >= 1
    requires cfg.g.count >= 3 * cfg.maxInMem && cfg.g.count >= cfg.maxEventSize / cfg.g.size + 3
    ensures Safe(cfg) <==> Short(cfg) && cfg.maxInMem >= 8
  {
    SafeIff(cfg);
  }

  lemma ShortFits(cfg: Config)
    requires cfg.Valid() && Short(cfg) && cfg.g.count >= 2 * cfg.maxInMem
    ensures EventsFit(cfg) == true
  {
    SmallQuotient(cfg.maxEventSize, cfg.g.size);
  }

  lemma SmallQuotient(a: nat, b: nat)
    requires a < b
    ensures a / b == 0
  {
  }

  lemma SomeRunHangs(cfg: Config) returns (y: System)
    requires cfg.Valid() && Decided(cfg) && !Spacious(cfg)
    ensures HangsAt(cfg, y)
  {
    var store := seq(cfg.g.count, _ => seq(cfg.g.size, _ => 0));
    if Short(cfg) {
      ShortFits(cfg);
      y := SmallEventsHang(cfg, store);
    } else if Small(cfg) {
      y := SmallEventsHang(cfg, store);
    } else if Leaky(cfg) {
      y := LeaksHang(cfg, store);
    } else {
      y := LongEventHangs(cfg, store);
    }
  }
}
