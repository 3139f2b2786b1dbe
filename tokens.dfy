/**
 * The canonical token record that both providers are mapped into, and the
 * key the store deduplicates on: the pair (address, dataSource).
 */
module Tokens {

  /** The `dataSource` field: which provider produced the record. */
  datatype Source = CoinMarketCap | CoinGecko

  /** A JSON value copied into a record: a number, a string, or null. */
  datatype Value = Num(x: real) | Str(s: string) | Null

  /**
   * `dateAdded`: CoinMarketCap's own ISO 8601 text, passed through, or an
   * instant in milliseconds computed by the scraper (stored via `toISOString`).
   */
  datatype Timestamp = Iso(text: string) | Millis(ms: int)

  datatype Token = Token(
    name: string,
    symbol: string,
    address: string,
    dateAdded: Timestamp,
    slug: string,
    url: string,
    marketCap: Value,
    volume: Value,
    dataSource: Source)

  /** The dedupe key: a record is identified by its address together with its source. */
  datatype Key = Key(address: string, dataSource: Source)

  function KeyOf(t: Token): Key {
    Key(t.address, t.dataSource)
  }

  /** Some record in `ts` carries key `k`: what lodash `find({address, dataSource})` looks for. */
  predicate HasKey(ts: seq<Token>, k: Key) {
    exists i :: 0 <= i < |ts| && KeyOf(ts[i]) == k
  }

  /** No two records share a key. */
  predicate KeysUnique(ts: seq<Token>) {
    forall i, j :: 0 <= i < j < |ts| ==> KeyOf(ts[i]) != KeyOf(ts[j])
  }

  /** How many records carry key `k`. */
  function Count(ts: seq<Token>, k: Key): nat {
    if ts == [] then 0 else Count(ts[..|ts| - 1], k) + (if KeyOf(ts[|ts| - 1]) == k then 1 else 0)
  }

  lemma HasKeyAppend(a: seq<Token>, b: seq<Token>, k: Key)
    ensures HasKey(a + b, k) <==> HasKey(a, k) || HasKey(b, k)
  {
    if HasKey(a + b, k) {
      var i :| 0 <= i < |a + b| && KeyOf((a + b)[i]) == k;
      if i >= |a| {
        assert KeyOf(b[i - |a|]) == k;
      }
    }
    if HasKey(a, k) {
      var i :| 0 <= i < |a| && KeyOf(a[i]) == k;
      assert KeyOf((a + b)[i]) == k;
    }
    if HasKey(b, k) {
      var j :| 0 <= j < |b| && KeyOf(b[j]) == k;
      assert KeyOf((a + b)[|a| + j]) == k;
    }
  }

  lemma {:induction false} CountAbsent(ts: seq<Token>, k: Key)
    requires !HasKey(ts, k)
    ensures Count(ts, k) == 0
  {
    if ts != [] {
      CountAbsent(ts[..|ts| - 1], k);
    }
  }

  /** In a store whose keys are unique, a key that is present is present exactly once. */
  lemma {:induction false} CountUnique(ts: seq<Token>, k: Key)
    requires KeysUnique(ts) && HasKey(ts, k)
    ensures Count(ts, k) == 1
  {
    var init := ts[..|ts| - 1];
    var last := ts[|ts| - 1];
    assert ts == init + [last];
    assert KeysUnique(init);
    if KeyOf(last) == k {
      CountAbsent(init, k);
    } else {
      HasKeyAppend(init, [last], k);
      CountUnique(init, k);
    }
  }
}
