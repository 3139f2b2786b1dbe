/**
 * The token database and the ingest routine. `tokens` is the in-memory
 * document (`DB.data.tokens`), `saved` what the database file holds. Each
 * ingest loop pushes onto `tokens`; only a write copies it to `saved`, and
 * a read at the start of a run replaces `tokens` with `saved`.
 */
module Ingest {
  import opened Wrappers
  import opened Tokens
  import opened Dedupe
  import CoinMarketCap
  import CoinGecko

  /** A provider response: None when the request failed and its `.catch` ran instead. */
  function Fetched<T>(response: Option<seq<T>>): seq<T> {
    if response.Some? then response.value else []
  }

  /** Concatenation regroups freely: the notifications of two steps line up with what both pushed. */
  lemma Regroup(ts: seq<Token>, xs: seq<Token>, ys: seq<Token>)
    ensures (ts + xs) + ys == ts + (xs + ys)
  {
  }

  /**
   * An empty store, one CoinMarketCap entry on the chain and an empty
   * CoinGecko table: whichever callback completes first, the run leaves one
   * record, so by Run's contract a notifying run sends exactly one alert.
   */
  lemma FirstListing(e: CoinMarketCap.Entry, now: int)
    requires CoinMarketCap.OnBnb(e)
    ensures CoinGecko.ScanRows([], now) == CoinGecko.Scan([], true)
    ensures Merge(Merge([], CoinMarketCap.Candidates([e])), CoinGecko.ScanRows([], now).tokens) == [CoinMarketCap.ToToken(e)]
    ensures Merge(Merge([], CoinGecko.ScanRows([], now).tokens), CoinMarketCap.Candidates([e])) == [CoinMarketCap.ToToken(e)]
  {
    var t := CoinMarketCap.ToToken(e);
    assert [e][..0] == [];
    assert CoinMarketCap.Candidates([e]) == [t];
    assert CoinGecko.Outcomes([], now) == [];
    DedupeKey([], t);
  }

  /** A store that already holds the entry's key is left as it is by a batch of that entry alone. */
  lemma RepeatedListing(ts: seq<Token>, e: CoinMarketCap.Entry)
    requires CoinMarketCap.OnBnb(e)
    requires HasKey(ts, Key(e.platform.value.tokenAddress, CoinMarketCap))
    ensures Merge(ts, CoinMarketCap.Candidates([e])) == ts
  {
    assert [e][..0] == [];
    assert CoinMarketCap.Candidates([e]) == [CoinMarketCap.ToToken(e)];
    MergeKnown(ts, [CoinMarketCap.ToToken(e)]);
  }

  /**
   * An empty store, no CoinMarketCap entries and a CoinGecko table of one new
   * row on the chain with a valid age: the walk completes and the list ends
   * as that row's record, in either order.
   */
  lemma OnlyCoinGecko(r: CoinGecko.Row, now: int)
    requires CoinGecko.OnBsc(r) && CoinGecko.AddedAt(now, r.addedText).Some?
    ensures CoinGecko.ScanRows([r], now).complete
    ensures var t := CoinGecko.CgToken(r, CoinGecko.AddedAt(now, r.addedText).value);
      Merge(Merge([], CoinMarketCap.Candidates([])), CoinGecko.ScanRows([r], now).tokens) == [t] &&
      Merge(Merge([], CoinGecko.ScanRows([r], now).tokens), CoinMarketCap.Candidates([])) == [t]
  {
    var t := CoinGecko.CgToken(r, CoinGecko.AddedAt(now, r.addedText).value);
    assert CoinGecko.ScanRows([r], now) == CoinGecko.Scan([t], true) by {
      assert CoinGecko.Outcomes([r], now) == [CoinGecko.Keep(t)];
      CoinGecko.WalkSnoc([], CoinGecko.Keep(t));
      assert [] + [CoinGecko.Keep(t)] == [CoinGecko.Keep(t)];
    }
    DedupeKey([], t);
  }

  /**
   * A first notifying run on a fresh database: CoinMarketCap returns one
   * entry on the chain and CoinGecko an empty table. One record is stored,
   * one alert is sent, and the file holds the record.
   */
  method FirstRun(e: CoinMarketCap.Entry, now: int, coinGeckoFirst: bool) returns (store: Store, sent: seq<Token>)
    requires CoinMarketCap.OnBnb(e)
    ensures sent == [CoinMarketCap.ToToken(e)]
    ensures store.tokens == sent && store.saved == sent
  {
    store := new Store.Open(None);
    FirstListing(e, now);
    sent := store.Run(true, Some([e]), Some([]), now, coinGeckoFirst);
  }

  /**
   * A notifying run whose CoinMarketCap entry is stored already: the list and
   * the file stay as they were and no alert is sent.
   */
  method RepeatedRun(e: CoinMarketCap.Entry, now: int, coinGeckoFirst: bool) returns (store: Store, sent: seq<Token>)
    requires CoinMarketCap.OnBnb(e)
    ensures sent == []
    ensures store.tokens == [CoinMarketCap.ToToken(e)] && store.saved == store.tokens
  {
    var t := CoinMarketCap.ToToken(e);
    store := new Store.Open(Some([t]));
    assert KeyOf([t][0]) == KeyOf(t);
    RepeatedListing([t], e);
    assert CoinGecko.Outcomes([], now) == [];
    sent := store.Run(true, Some([e]), Some([]), now, coinGeckoFirst);
  }

  /**
   * A notifying run on a fresh database where the CoinMarketCap request fails
   * and CoinGecko's table holds one new row on the chain with a valid age:
   * the CoinGecko record is stored, alerted and written.
   */
  method CoinMarketCapDown(r: CoinGecko.Row, now: int, coinGeckoFirst: bool) returns (store: Store, sent: seq<Token>)
    requires CoinGecko.OnBsc(r) && CoinGecko.AddedAt(now, r.addedText).Some?
    ensures sent == [CoinGecko.CgToken(r, CoinGecko.AddedAt(now, r.addedText).value)]
    ensures store.tokens == sent && store.saved == sent
  {
    store := new Store.Open(None);
    OnlyCoinGecko(r, now);
    sent := store.Run(true, None, Some([r]), now, coinGeckoFirst);
  }

  class Store {
    var tokens: seq<Token>
    var saved: seq<Token>

    /** Startup: read the file and, when it holds no document yet, write an empty token list. */
    constructor Open(file: Option<seq<Token>>)
      ensures tokens == saved == file.GetOr([])
    {
      tokens := file.GetOr([]);
      saved := tokens;
    }

    /** `DB.read()`: the in-memory list becomes the file's, unsaved pushes are lost. */
    method Load()
      modifies this`tokens
      ensures tokens == saved
    {
      tokens := saved;
    }

    /** `DB.write()`: the whole list replaces the file's contents. */
    method Flush()
      modifies this`saved
      ensures saved == tokens
    {
      saved := tokens;
    }

    /** `find({address, dataSource})`: the first record carrying the key, if any. */
    method Find(address: string, source: Source) returns (found: Option<Token>)
      ensures found.None? <==> !HasKey(tokens, Key(address, source))
      ensures found.Some? ==> exists i :: (0 <= i < |tokens| && tokens[i] == found.value
        && KeyOf(tokens[i]) == Key(address, source) && !HasKey(tokens[..i], Key(address, source)))
    {
      var i := 0;
      while i < |tokens|
        invariant 0 <= i <= |tokens|
        invariant !HasKey(tokens[..i], Key(address, source))
      {
        if tokens[i].address == address && tokens[i].dataSource == source {
          return Some(tokens[i]);
        }
        assert tokens[..i + 1] == tokens[..i] + [tokens[i]];
        HasKeyAppend(tokens[..i], [tokens[i]], Key(address, source));
        i := i + 1;
      }
      assert tokens[..i] == tokens;
      return None;
    }

    /** Pushes `t` unless its key is stored, reporting the push as a notification when `notify` holds. */
    method Offer(t: Token, notify: bool) returns (sent: seq<Token>)
      modifies this`tokens
      ensures tokens == Merge(old(tokens), [t])
      ensures sent == if notify && tokens != old(tokens) then [t] else []
      ensures notify ==> tokens == old(tokens) + sent
    {
      assert [t][..0] == [];
      var found := Find(t.address, t.dataSource);
      sent := [];
      if found.None? {
        tokens := tokens + [t];
        if notify {
          sent := [t];
        }
      }
    }

    /**
     * The CoinMarketCap callback: every entry on the BNB platform is offered
     * in response order; `sent` lists the records notified, one per push.
     */
    method IngestCoinMarketCap(batch: seq<CoinMarketCap.Entry>, notify: bool) returns (sent: seq<Token>)
      modifies this`tokens
      ensures tokens == Merge(old(tokens), CoinMarketCap.Candidates(batch))
      ensures if notify then tokens == old(tokens) + sent else sent == []
    {
      sent := [];
      var i := 0;
      while i < |batch|
        invariant 0 <= i <= |batch|
        invariant tokens == Merge(old(tokens), CoinMarketCap.Candidates(batch[..i]))
        invariant if notify then tokens == old(tokens) + sent else sent == []
      {
        var entry := batch[i];
        ghost var cs := CoinMarketCap.Candidates(batch[..i]);
        assert batch[..i + 1][..i] == batch[..i] && batch[..i + 1][i] == entry;
        if CoinMarketCap.OnBnb(entry) {
          var t := CoinMarketCap.ToToken(entry);
          assert CoinMarketCap.Candidates(batch[..i + 1]) == cs + [t];
          MergeSnoc(old(tokens), cs, t);
          var s := Offer(t, notify);
          Regroup(old(tokens), sent, s);
          sent := sent + s;
        } else {
          assert CoinMarketCap.Candidates(batch[..i + 1]) == cs;
        }
        i := i + 1;
      }
      assert batch[..i] == batch;
    }

    /**
     * The CoinGecko callback: every row on Binance Smart Chain is offered in
     * table order. `complete` is false when a row's age made the date invalid:
     * the exception ends the walk there and skips the callback's write.
     */
    method IngestCoinGecko(rows: seq<CoinGecko.Row>, now: int, notify: bool) returns (sent: seq<Token>, complete: bool)
      modifies this`tokens
      ensures tokens == Merge(old(tokens), CoinGecko.ScanRows(rows, now).tokens)
      ensures complete == CoinGecko.ScanRows(rows, now).complete
      ensures if notify then tokens == old(tokens) + sent else sent == []
    {
      sent, complete := [], true;
      var i := 0;
      while i < |rows| && complete
        invariant 0 <= i <= |rows|
        invariant tokens == Merge(old(tokens), CoinGecko.ScanRows(rows[..i], now).tokens)
        invariant complete == CoinGecko.ScanRows(rows[..i], now).complete
        invariant if notify then tokens == old(tokens) + sent else sent == []
      {
        ghost var cs := CoinGecko.ScanRows(rows[..i], now).tokens;
        ghost var next := CoinGecko.ScanRows(rows[..i + 1], now);
        CoinGecko.ScanStep(rows, i, now);
        var outcome := CoinGecko.Classify(rows[i], now);
        if outcome.Throw? {
          complete := false;
        } else if outcome.Keep? {
          var t := outcome.token;
          MergeSnoc(old(tokens), cs, t);
          var s := Offer(t, notify);
          Regroup(old(tokens), sent, s);
          sent := sent + s;
        }
        assert tokens == Merge(old(tokens), next.tokens) && complete == next.complete;
        i := i + 1;
      }
      if i < |rows| {
        CoinGecko.ScanHalts(rows[..i], rows[i..], now);
        assert rows[..i] + rows[i..] == rows;
      } else {
        assert rows[..i] == rows;
      }
    }

    /**
     * `run(notify)`: read the file, then let the two provider callbacks run,
     * in either completion order. A failed request (None) does nothing; a
     * callback that finishes writes the file. `sent` lists every notification.
     */
    method Run(notify: bool, cmc: Option<seq<CoinMarketCap.Entry>>, cg: Option<seq<CoinGecko.Row>>,
               now: int, coinGeckoFirst: bool) returns (sent: seq<Token>)
      modifies this
      ensures var cmcNew := CoinMarketCap.Candidates(Fetched(cmc));
              var scan := CoinGecko.ScanRows(Fetched(cg), now);
              var cgWrites := cg.Some? && scan.complete;
              if coinGeckoFirst then
                tokens == Merge(Merge(old(saved), scan.tokens), cmcNew) &&
                saved == (if cmc.Some? then tokens
                          else if cgWrites then Merge(old(saved), scan.tokens) else old(saved))
              else
                tokens == Merge(Merge(old(saved), cmcNew), scan.tokens) &&
                saved == (if cgWrites then tokens
                          else if cmc.Some? then Merge(old(saved), cmcNew) else old(saved))
      ensures if notify then tokens == old(saved) + sent else sent == []
    {
      Load();
      if coinGeckoFirst {
        var first := IngestCoinGeckoResponse(cg, now, notify);
        var second := IngestCoinMarketCapResponse(cmc, notify);
        Regroup(old(saved), first, second);
        sent := first + second;
      } else {
        var first := IngestCoinMarketCapResponse(cmc, notify);
        var second := IngestCoinGeckoResponse(cg, now, notify);
        Regroup(old(saved), first, second);
        sent := first + second;
      }
    }

    /** The CoinMarketCap request's completion: on success ingest, then write. */
    method IngestCoinMarketCapResponse(cmc: Option<seq<CoinMarketCap.Entry>>, notify: bool) returns (sent: seq<Token>)
      modifies this
      ensures tokens == Merge(old(tokens), CoinMarketCap.Candidates(Fetched(cmc)))
      ensures saved == if cmc.Some? then tokens else old(saved)
      ensures if notify then tokens == old(tokens) + sent else sent == []
    {
      sent := [];
      if cmc.Some? {
        sent := IngestCoinMarketCap(cmc.value, notify);
        MergeAppends(old(tokens), CoinMarketCap.Candidates(cmc.value));
        Flush();
      }
    }

    /** The CoinGecko request's completion: on success ingest, then write unless a row threw. */
    method IngestCoinGeckoResponse(cg: Option<seq<CoinGecko.Row>>, now: int, notify: bool) returns (sent: seq<Token>)
      modifies this
      ensures tokens == Merge(old(tokens), CoinGecko.ScanRows(Fetched(cg), now).tokens)
      ensures saved == if cg.Some? && CoinGecko.ScanRows(cg.value, now).complete then tokens else old(saved)
      ensures if notify then tokens == old(tokens) + sent else sent == []
    {
      sent := [];
      if cg.Some? {
        var complete;
        sent, complete := IngestCoinGecko(cg.value, now, notify);
        MergeAppends(old(tokens), CoinGecko.ScanRows(cg.value, now).tokens);
        if complete {
          Flush();
        }
      }
    }
  }
}
