/**
 * The CoinMarketCap adapter: entries of the latest-listings response, already
 * decoded from JSON, are filtered to the BNB platform and mapped to records.
 */
module CoinMarketCap {
  import opened Wrappers
  import opened Tokens

  /** `platform`: the chain a token lives on and its contract address there. */
  datatype Platform = Platform(symbol: Option<string>, tokenAddress: string)

  /** One element of `response.data.data`, reduced to the fields the adapter reads. */
  datatype Entry = Entry(
    name: string,
    symbol: string,
    slug: string,
    dateAdded: string,
    platform: Option<Platform>,
    fullyDilutedMarketCap: Value,
    volume24h: Value)

  const ChainSymbol := "BNB"
  const UrlPrefix := "https://coinmarketcap.com/currencies/"

  /** JavaScript truthiness of an optional string: present and not empty. */
  predicate Truthy(s: Option<string>) {
    s.Some? && s.value != ""
  }

  /**
   * `token.platform && token.platform.symbol && token.platform.symbol === 'BNB'`:
   * an entry without a platform is simply not on the chain.
   */
  predicate OnBnb(e: Entry)
    ensures OnBnb(e) <==> e.platform.Some? && e.platform.value.symbol == Some("BNB")
  {
    e.platform.Some? && Truthy(e.platform.value.symbol) && e.platform.value.symbol == Some(ChainSymbol)
  }

  /** The record built from an entry on the chain. */
  function ToToken(e: Entry): (t: Token)
    requires e.platform.Some?
    ensures KeyOf(t) == Key(e.platform.value.tokenAddress, CoinMarketCap)
    ensures t.slug == e.slug && |UrlPrefix| <= |t.url| && t.url[..|UrlPrefix|] == UrlPrefix && t.url[|UrlPrefix|..] == t.slug
    ensures t.marketCap == e.fullyDilutedMarketCap && t.volume == e.volume24h
    ensures t.name == e.name && t.symbol == e.symbol && t.dateAdded == Iso(e.dateAdded)
  {
    Token(
      name := e.name,
      symbol := e.symbol,
      address := e.platform.value.tokenAddress,
      dateAdded := Iso(e.dateAdded),
      slug := e.slug,
      url := UrlPrefix + e.slug,
      marketCap := e.fullyDilutedMarketCap,
      volume := e.volume24h,
      dataSource := CoinMarketCap)
  }

  /** The records the loop offers to the store, in response order. */
  function Candidates(batch: seq<Entry>): (cs: seq<Token>)
    ensures |cs| <= |batch|
    decreases |batch|
  {
    if batch == [] then []
    else
      var e := batch[|batch| - 1];
      Candidates(batch[..|batch| - 1]) + (if OnBnb(e) then [ToToken(e)] else [])
  }

  /** Every candidate is the record of some entry on the chain, so every candidate is CoinMarketCap's. */
  lemma {:induction false} CandidatesSound(batch: seq<Entry>)
    ensures forall t :: t in Candidates(batch) ==>
      t.dataSource == CoinMarketCap && exists i :: 0 <= i < |batch| && OnBnb(batch[i]) && t == ToToken(batch[i])
    decreases |batch|
  {
    if batch != [] {
      var init := batch[..|batch| - 1];
      CandidatesSound(init);
      forall t | t in Candidates(init)
        ensures exists i :: 0 <= i < |batch| && OnBnb(batch[i]) && t == ToToken(batch[i])
      {
        var i :| 0 <= i < |init| && OnBnb(init[i]) && t == ToToken(init[i]);
        assert batch[i] == init[i];
      }
    }
  }

  /** Every entry on the chain yields a candidate; entries elsewhere yield none. */
  lemma {:induction false} CandidatesComplete(batch: seq<Entry>)
    ensures forall i :: 0 <= i < |batch| && OnBnb(batch[i]) ==> ToToken(batch[i]) in Candidates(batch)
    ensures |Candidates(batch)| <= |batch|
    decreases |batch|
  {
    if batch != [] {
      var init := batch[..|batch| - 1];
      CandidatesComplete(init);
      forall i | 0 <= i < |batch| - 1 && OnBnb(batch[i])
        ensures ToToken(batch[i]) in Candidates(batch)
      {
        assert batch[i] == init[i];
      }
    }
  }

  /** A response holding one entry on the chain and one elsewhere yields the first alone. */
  lemma MixedResponse(onChain: Entry, elsewhere: Entry)
    requires OnBnb(onChain)
    requires elsewhere.platform.Some? && elsewhere.platform.value.symbol != Some("BNB")
    ensures Candidates([onChain, elsewhere]) == [ToToken(onChain)]
  {
    assert [onChain, elsewhere][..1] == [onChain];
    assert [onChain][..0] == [];
    assert Candidates([onChain]) == [ToToken(onChain)];
    assert !OnBnb(elsewhere);
  }
}
