/**
 * The CoinGecko adapter: rows of the recently-added table, already reduced
 * to the attribute values and texts the scraper selects, are filtered to
 * Binance Smart Chain and mapped to records. Times are integer milliseconds.
 */
module CoinGecko {
  import opened Wrappers
  import opened Text
  import opened Tokens

  /** One table row, as the values its selectors yield. */
  datatype Row = Row(
    coinName: string,        // `data-sort` of the first `.coin-name`
    chain: Option<string>,   // `data-sort` of the second `.coin-name`, absent when there is none
    symbolText: string,      // text of `.coin-name div span`
    address: string,         // `data-address` of `i[data-address]`
    addedText: string,       // text of `td.trade`, the relative age
    href: string,            // `href` of the first `.coin-name a`
    liquidityText: string)   // text of `td.td-liquidity_score`, the 24h volume

  const ChainName := "Binance Smart Chain"
  const UrlPrefix := "https://www.coingecko.com/en/coins"
  const MarketCapSentinel := "Unable to obtain from CoinGecko"
  const MsPerMinute := 60000
  const MsPerHour := 3600000

  predicate OnBsc(r: Row) {
    r.chain == Some(ChainName)
  }

  /** The scraped volume text with its first `$` and every `,` removed; it stays a string. */
  function CleanVolume(s: string): string {
    RemoveAll(RemoveFirst(s, '$'), ',')
  }

  /**
   * Cleaning leaves no `,`, removes one `$` (if there is one), and keeps the
   * count of every other character.
   */
  lemma CleanVolumeCounts(s: string)
    ensures ',' !in CleanVolume(s)
    ensures forall d :: d != ',' && d != '$' ==> multiset(CleanVolume(s))[d] == multiset(s)[d]
    ensures multiset(CleanVolume(s))['$'] == if '$' in s then multiset(s)['$'] - 1 else 0
  {
    RemoveAllGone(RemoveFirst(s, '$'), ',');
    RemoveAllCounts(RemoveFirst(s, '$'), ',');
    if '$' in s {
      RemoveFirstSpec(s, '$');
    }
  }

  lemma DollarGone()
    ensures RemoveFirst("$1,234,567", '$') == "1,234,567"
  {
  }

  /** Digit groups separated by commas come out run together. */
  lemma JoinGroups(one: string, two: string, three: string)
    requires ',' !in one && ',' !in two && ',' !in three
    ensures RemoveAll(one + "," + two + "," + three, ',') == one + two + three
  {
    var comma := ",";
    assert RemoveAll(comma, ',') == [];
    assert RemoveAll(one + comma, ',') == one by {
      RemoveAllAppend(one, comma, ',');
      RemoveAllKeeps(one, ',');
    }
    assert RemoveAll(one + comma + two, ',') == one + two by {
      RemoveAllAppend(one + comma, two, ',');
      RemoveAllKeeps(two, ',');
    }
    assert RemoveAll(one + comma + two + comma, ',') == one + two by {
      RemoveAllAppend(one + comma + two, comma, ',');
    }
    RemoveAllAppend(one + comma + two + comma, three, ',');
    RemoveAllKeeps(three, ',');
  }

  lemma CommasGone()
    ensures RemoveAll("1,234,567", ',') == "1234567"
  {
    JoinGroups("1", "234", "567");
    assert "1,234,567" == "1" + "," + "234" + "," + "567";
    assert "1" + "234" + "567" == "1234567";
  }

  /** The 24h volume text "$1,234,567" becomes "1234567". */
  lemma CleanVolumeExample()
    ensures CleanVolume("$1,234,567") == "1234567"
  {
    DollarGone();
    CommasGone();
  }

  /** A volume text with neither `$` nor `,` is kept as it is. */
  lemma CleanVolumeKeeps(s: string)
    requires '$' !in s && ',' !in s
    ensures CleanVolume(s) == s
  {
    RemoveAllKeeps(s, ',');
  }

  /**
   * The estimated add time from a relative age "N hours" / "N minutes" read
   * at `now`. Any other unit word leaves `now`. A count that is not a number
   * makes the date invalid, and `toISOString` then throws: None. A negative
   * count dates the token after `now`, as the subtraction in the code does.
   */
  function AddedAt(now: int, text: string): Option<int>
  {
    var parts := Split(Trim(text), ' ');
    var count := ParseCount(parts[0]);
    if |parts| > 1 && parts[1] == "hours" then
      if count.Some? then Some(now - count.value * MsPerHour) else None
    else if |parts| > 1 && parts[1] == "minutes" then
      if count.Some? then Some(now - count.value * MsPerMinute) else None
    else Some(now)
  }

  /** Splitting "count unit" on the space between two words without white space. */
  lemma TwoWords(count: string, unit: string)
    requires count != [] && unit != [] && NoSpace(count) && NoSpace(unit)
    ensures Trim(count + " " + unit) == count + " " + unit
    ensures Split(Trim(count + " " + unit), ' ') == [count, unit]
  {
    var s := count + " " + unit;
    assert s[0] == count[0] && s[|s| - 1] == unit[|unit| - 1];
    TrimKeeps(s);
    assert ' ' !in count by { assert IsSpace(' '); }
    assert ' ' !in unit by { assert IsSpace(' '); }
    assert Join([count, unit], ' ') == s;
    SplitJoin([count, unit], ' ');
  }

  /**
   * What AddedAt makes of a text whose first two words are a count and a unit
   * word: only those two are read, so any further words change nothing.
   */
  lemma AddedAtWords(now: int, text: string, words: seq<string>, count: string, unit: string)
    requires Split(Trim(text), ' ') == words
    requires |words| >= 2 && words[0] == count && words[1] == unit
    ensures unit == "hours" ==>
      AddedAt(now, text) == if ParseCount(count).Some? then Some(now - ParseCount(count).value * MsPerHour) else None
    ensures unit == "minutes" ==>
      AddedAt(now, text) == if ParseCount(count).Some? then Some(now - ParseCount(count).value * MsPerMinute) else None
    ensures unit != "hours" && unit != "minutes" ==> AddedAt(now, text) == Some(now)
  {
  }

  lemma DigitsNoSpace(count: string)
    requires AllDigits(count)
    ensures NoSpace(count)
  {
    forall k | 0 <= k < |count|
      ensures !IsSpace(count[k])
    {
      assert IsDigit(count[k]);
    }
  }

  /** A decimal count and a unit word split into exactly those two words. */
  lemma CountWords(count: string, unit: string)
    requires count != [] && AllDigits(count)
    requires unit == "hours" || unit == "minutes"
    ensures Split(Trim(count + " " + unit), ' ') == [count, unit]
  {
    DigitsNoSpace(count);
    TwoWords(count, unit);
  }

  /** A text whose first word is a count read as `v` and whose second is "hours" or "minutes". */
  lemma AgeOfWords(now: int, text: string, words: seq<string>, v: int)
    requires Split(Trim(text), ' ') == words && |words| >= 2
    requires words[1] == "hours" || words[1] == "minutes"
    requires ParseCount(words[0]) == Some(v)
    ensures AddedAt(now, text) == Some(now - v * (if words[1] == "hours" then MsPerHour else MsPerMinute))
  {
    AddedAtWords(now, text, words, words[0], words[1]);
  }

  lemma DigitsCount(count: string)
    requires AllDigits(count)
    ensures ParseCount(count) == Some(DigitsValue(count))
  {
  }

  /** A text whose first two words are a decimal count and "hours", whatever follows. */
  lemma AgeHoursWords(now: int, text: string, words: seq<string>, count: string)
    requires Split(Trim(text), ' ') == words && |words| >= 2
    requires words[0] == count && words[1] == "hours" && AllDigits(count)
    ensures AddedAt(now, text) == Some(now - DigitsValue(count) * MsPerHour)
  {
    DigitsCount(count);
    AddedAtWords(now, text, words, count, "hours");
  }

  /** A text whose first two words are a decimal count and "minutes", whatever follows. */
  lemma AgeMinutesWords(now: int, text: string, words: seq<string>, count: string)
    requires Split(Trim(text), ' ') == words && |words| >= 2
    requires words[0] == count && words[1] == "minutes" && AllDigits(count)
    ensures AddedAt(now, text) == Some(now - DigitsValue(count) * MsPerMinute)
  {
    DigitsCount(count);
    AddedAtWords(now, text, words, count, "minutes");
  }

  lemma UnitText(count: string)
    ensures count + " hours" == count + " " + "hours"
    ensures count + " minutes" == count + " " + "minutes"
  {
  }

  lemma AgoText(count: string)
    ensures count + " hours ago" == count + " " + "hours" + " ago"
    ensures count + " minutes ago" == count + " " + "minutes" + " ago"
  {
  }

  /** "N hours" read at `now`, N a decimal count, dates the token N hours earlier. */
  lemma AgeHours(now: int, count: string)
    requires count != [] && AllDigits(count)
    ensures AddedAt(now, count + " hours") == Some(now - DigitsValue(count) * MsPerHour)
  {
    CountWords(count, "hours");
    UnitText(count);
    AgeHoursWords(now, count + " hours", [count, "hours"], count);
  }

  /** "N minutes" read at `now`, N a decimal count, dates the token N minutes earlier. */
  lemma AgeMinutes(now: int, count: string)
    requires count != [] && AllDigits(count)
    ensures AddedAt(now, count + " minutes") == Some(now - DigitsValue(count) * MsPerMinute)
  {
    CountWords(count, "minutes");
    UnitText(count);
    AgeMinutesWords(now, count + " minutes", [count, "minutes"], count);
  }

  /** Splitting "count unit ago" gives the three words. */
  lemma AgoWords(count: string, unit: string)
    requires count != [] && AllDigits(count)
    requires unit == "hours" || unit == "minutes"
    ensures Split(Trim(count + " " + unit + " ago"), ' ') == [count, unit, "ago"]
  {
    var s := count + " " + unit + " ago";
    DigitsNoSpace(count);
    assert s[0] == count[0] && s[|s| - 1] == 'o';
    TrimKeeps(s);
    assert ' ' !in count by { assert IsSpace(' '); }
    assert Join([count, unit, "ago"], ' ') == s by {
      assert [count, unit, "ago"][1..] == [unit, "ago"];
      assert [unit, "ago"][1..] == ["ago"];
      assert Join([unit, "ago"], ' ') == unit + [' '] + "ago";
      assert Join([count, unit, "ago"], ' ') == count + [' '] + (unit + [' '] + "ago");
    }
    SplitJoin([count, unit, "ago"], ' ');
  }

  /** The trailing "ago" changes nothing: "N hours ago" dates the token N hours before the fetch. */
  lemma AgeHoursAgo(now: int, count: string)
    requires count != [] && AllDigits(count)
    ensures AddedAt(now, count + " hours ago") == Some(now - DigitsValue(count) * MsPerHour)
  {
    AgoWords(count, "hours");
    AgoText(count);
    AgeHoursWords(now, count + " hours ago", [count, "hours", "ago"], count);
  }

  /** The trailing "ago" changes nothing: "N minutes ago" dates the token N minutes before the fetch. */
  lemma AgeMinutesAgo(now: int, count: string)
    requires count != [] && AllDigits(count)
    ensures AddedAt(now, count + " minutes ago") == Some(now - DigitsValue(count) * MsPerMinute)
  {
    AgoWords(count, "minutes");
    AgoText(count);
    AgeMinutesWords(now, count + " minutes ago", [count, "minutes", "ago"], count);
  }

  /** The age "3 hours ago" dates the token three hours before the fetch. */
  lemma ThreeHoursAgoText(now: int)
    ensures AddedAt(now, "3 hours ago") == Some(now - 3 * MsPerHour)
  {
    var three := "3";
    assert three + " hours ago" == "3 hours ago";
    assert AllDigits(three) && DigitsValue(three) == 3 by {
      assert three[..0] == [];
    }
    AgeHoursAgo(now, three);
  }

  /** The age "3 hours" dates the token three hours before the fetch. */
  lemma ThreeHoursAgo(now: int)
    ensures AddedAt(now, "3 hours") == Some(now - 3 * MsPerHour)
  {
    var three := "3";
    assert three + " hours" == "3 hours";
    assert AllDigits(three) && DigitsValue(three) == 3 by {
      assert three[..0] == [];
    }
    AgeHours(now, three);
  }

  /** A minus sign in front of a decimal count: one word, read as the negated count. */
  lemma NegativeCount(count: string)
    requires count != [] && AllDigits(count)
    ensures NoSpace("-" + count)
    ensures ParseCount("-" + count) == Some(-(DigitsValue(count) as int))
  {
    var signed := "-" + count;
    assert signed[1..] == count && !IsDigit(signed[0]);
    DigitsNoSpace(count);
    assert forall k :: 1 <= k < |signed| ==> signed[k] == count[k - 1];
  }

  /** A signed count and "hours" split into exactly those two words. */
  lemma AheadWords(count: string)
    requires count != [] && AllDigits(count)
    ensures Split(Trim("-" + count + " hours"), ' ') == ["-" + count, "hours"]
  {
    NegativeCount(count);
    TwoWords("-" + count, "hours");
    assert "-" + count + " hours" == ("-" + count) + " " + "hours";
  }

  /** "-N hours" dates the token N hours after the fetch: the code subtracts the signed count. */
  lemma AgeAheadHours(now: int, count: string)
    requires count != [] && AllDigits(count)
    ensures AddedAt(now, "-" + count + " hours") == Some(now + DigitsValue(count) * MsPerHour)
  {
    AheadWords(count);
    NegativeCount(count);
    AgeOfWords(now, "-" + count + " hours", ["-" + count, "hours"], -(DigitsValue(count) as int));
  }

  /** Without a minus sign in the age text, the derived date is never later than the fetch. */
  lemma AddedAtNotLater(now: int, text: string)
    requires '-' !in text
    ensures AddedAt(now, text).Some? ==> AddedAt(now, text).value <= now
  {
    var t := Trim(text);
    TrimSpec(text);
    var i :| SpaceAround(text, i, t);
    assert '-' !in t by {
      assert forall k :: 0 <= k < |t| ==> t[k] == text[i + k];
    }
    var first := Split(t, ' ')[0];
    SplitFirst(t, ' ');
    assert '-' !in first by {
      assert forall k :: 0 <= k < |first| ==> first[k] == t[k];
    }
    ParseCountSpec(first);
  }

  /** A text with no second word, the empty cell included, leaves the fetch time: there is no unit to read. */
  lemma AgeNoUnit(now: int, text: string)
    requires |Split(Trim(text), ' ')| == 1
    ensures AddedAt(now, text) == Some(now)
  {
  }

  /** An empty age cell, as when the row has no `td.trade`, dates the token at the fetch. */
  lemma AgeEmpty(now: int)
    ensures AddedAt(now, "") == Some(now)
  {
    assert Trim("") == "";
    assert Split("", ' ') == [""];
    AgeNoUnit(now, "");
  }

  /** Any other unit word, the singular "hour" and "minute" included, leaves the fetch time. */
  lemma AgeOtherUnit(now: int, count: string, unit: string)
    requires count != [] && unit != [] && NoSpace(count) && NoSpace(unit)
    requires unit != "hours" && unit != "minutes"
    ensures AddedAt(now, count + " " + unit) == Some(now)
  {
    TwoWords(count, unit);
    AddedAtWords(now, count + " " + unit, [count, unit], count, unit);
  }

  /** A count that is not a number, before "hours" or "minutes", yields no date. */
  lemma AgeBadCount(now: int, count: string, unit: string)
    requires count != [] && NoSpace(count) && !AllDigits(count) && !SignedDigits(count)
    requires unit == "hours" || unit == "minutes"
    ensures AddedAt(now, count + " " + unit) == None
  {
    assert NoSpace(unit);
    TwoWords(count, unit);
    AddedAtWords(now, count + " " + unit, [count, unit], count, unit);
  }

  /** The record built from a row on the chain, dated `at`. */
  function CgToken(r: Row, at: int): (t: Token)
    ensures KeyOf(t) == Key(r.address, CoinGecko)
    ensures t.name == r.coinName && t.slug == t.name
    ensures t.marketCap == Str(MarketCapSentinel)
    ensures t.url == UrlPrefix + r.href && t.dateAdded == Millis(at)
    ensures t.symbol == Trim(r.symbolText) && t.volume == Str(CleanVolume(Trim(r.liquidityText)))
  {
    Token(
      name := r.coinName,
      symbol := Trim(r.symbolText),
      address := r.address,
      dateAdded := Millis(at),
      slug := r.coinName,
      url := UrlPrefix + r.href,
      marketCap := Str(MarketCapSentinel),
      volume := Str(CleanVolume(Trim(r.liquidityText))),
      dataSource := CoinGecko)
  }

  /**
   * The scraped symbol and volume are cleaned: the symbol is the row's text
   * with the white space around it cut off, the volume holds no `,`.
   */
  lemma CgTokenClean(r: Row, at: int)
    ensures NoSpaceAtEnds(CgToken(r, at).symbol)
    ensures exists i :: SpaceAround(r.symbolText, i, CgToken(r, at).symbol)
    ensures CgToken(r, at).volume.Str? && ',' !in CgToken(r, at).volume.s
  {
    TrimSpec(r.symbolText);
    CleanVolumeCounts(Trim(r.liquidityText));
  }

  /** What one row does: nothing, a record offered to the store, or an exception. */
  datatype Outcome = Skip | Keep(token: Token) | Throw

  function Classify(r: Row, now: int): (o: Outcome)
    ensures o.Skip? <==> !OnBsc(r)
    ensures o.Throw? <==> OnBsc(r) && AddedAt(now, r.addedText).None?
    ensures o.Keep? ==>
      o.token.dataSource == CoinGecko && o.token.address == r.address &&
      o.token.marketCap == Str(MarketCapSentinel) && o.token.dateAdded.Millis? &&
      AddedAt(now, r.addedText) == Some(o.token.dateAdded.ms)
    ensures o.Keep? ==> o.token == CgToken(r, o.token.dateAdded.ms)
  {
    if !OnBsc(r) then Skip
    else
      var at := AddedAt(now, r.addedText);
      if at.None? then Throw else Keep(CgToken(r, at.value))
  }

  /**
   * The records the `each` callback offers, in table order, and whether it
   * ran to the end: an exception stops the walk at the failing row.
   */
  datatype Scan = Scan(tokens: seq<Token>, complete: bool)

  /** One more row's outcome: once stopped, the walk stays as it is. */
  function Step(prior: Scan, o: Outcome): Scan {
    if !prior.complete then prior
    else match o
      case Skip => prior
      case Throw => Scan(prior.tokens, false)
      case Keep(t) => Scan(prior.tokens + [t], true)
  }

  /** The walk over the outcomes of the rows, in table order. */
  function Walk(os: seq<Outcome>): Scan
    decreases |os|
  {
    if os == [] then Scan([], true) else Step(Walk(os[..|os| - 1]), os[|os| - 1])
  }

  /** The outcome of every row of the table. */
  function Outcomes(rows: seq<Row>, now: int): seq<Outcome> {
    seq(|rows|, i requires 0 <= i < |rows| => Classify(rows[i], now))
  }

  function ScanRows(rows: seq<Row>, now: int): Scan {
    Walk(Outcomes(rows, now))
  }

  lemma WalkSnoc(os: seq<Outcome>, o: Outcome)
    ensures Walk(os + [o]) == Step(Walk(os), o)
  {
    assert (os + [o])[..|os|] == os;
  }

  /** One more row does what Classify says. */
  lemma ScanStep(rows: seq<Row>, i: int, now: int)
    requires 0 <= i < |rows|
    ensures ScanRows(rows[..i + 1], now) == Step(ScanRows(rows[..i], now), Classify(rows[i], now))
  {
    assert Outcomes(rows[..i + 1], now) == Outcomes(rows[..i], now) + [Classify(rows[i], now)];
    WalkSnoc(Outcomes(rows[..i], now), Classify(rows[i], now));
  }

  /** Once an outcome has thrown, no later outcome changes anything. */
  lemma {:induction false} WalkHalts(os: seq<Outcome>, more: seq<Outcome>)
    requires !Walk(os).complete
    ensures Walk(os + more) == Walk(os)
    decreases |more|
  {
    if more == [] {
      assert os + more == os;
    } else {
      var init := more[..|more| - 1];
      WalkHalts(os, init);
      assert os + more == (os + init) + [more[|more| - 1]];
      WalkSnoc(os + init, more[|more| - 1]);
    }
  }

  /** Once a row has thrown, no later row changes anything. */
  lemma ScanHalts(rows: seq<Row>, more: seq<Row>, now: int)
    requires !ScanRows(rows, now).complete
    ensures ScanRows(rows + more, now) == ScanRows(rows, now)
  {
    assert Outcomes(rows + more, now) == Outcomes(rows, now) + Outcomes(more, now);
    WalkHalts(Outcomes(rows, now), Outcomes(more, now));
  }

  /** The walk completes exactly when no outcome is an exception. */
  lemma {:induction false} WalkCompleteIff(os: seq<Outcome>)
    ensures Walk(os).complete <==> forall i :: 0 <= i < |os| ==> !os[i].Throw?
    decreases |os|
  {
    if os != [] {
      var init := os[..|os| - 1];
      WalkCompleteIff(init);
      assert (forall i :: 0 <= i < |os| ==> !os[i].Throw?) <==>
        (forall i :: 0 <= i < |init| ==> !init[i].Throw?) && !os[|os| - 1].Throw? by {
        assert forall i :: 0 <= i < |init| ==> init[i] == os[i];
      }
    }
  }

  /** Every record offered is the token of some Keep outcome. */
  lemma {:induction false} WalkSound(os: seq<Outcome>)
    ensures forall t :: t in Walk(os).tokens ==> exists i :: 0 <= i < |os| && os[i] == Keep(t)
    decreases |os|
  {
    if os != [] {
      var init := os[..|os| - 1];
      WalkSound(init);
      forall t | t in Walk(init).tokens
        ensures exists i :: 0 <= i < |os| && os[i] == Keep(t)
      {
        var i :| 0 <= i < |init| && init[i] == Keep(t);
        assert os[i] == init[i];
      }
    }
  }

  /** A walk that completes offers the token of every Keep outcome. */
  lemma {:induction false} WalkComplete(os: seq<Outcome>)
    requires Walk(os).complete
    ensures forall i :: 0 <= i < |os| && os[i].Keep? ==> os[i].token in Walk(os).tokens
    decreases |os|
  {
    if os != [] {
      var init := os[..|os| - 1];
      var prior := Walk(init);
      assert prior.complete;
      WalkComplete(init);
      assert prior.tokens <= Walk(os).tokens;
      forall i | 0 <= i < |init| && os[i].Keep?
        ensures os[i].token in Walk(os).tokens
      {
        assert os[i] == init[i];
        assert os[i].token in prior.tokens;
      }
    }
  }

  /** A row lets the walk go on: it is off the chain, or its age gives a valid date. */
  predicate RowOk(r: Row, now: int) {
    OnBsc(r) ==> AddedAt(now, r.addedText).Some?
  }

  /** The walk completes exactly when every row on the chain has a valid age. */
  lemma ScanCompleteIff(rows: seq<Row>, now: int)
    ensures ScanRows(rows, now).complete <==> forall i :: 0 <= i < |rows| ==> RowOk(rows[i], now)
  {
    var os := Outcomes(rows, now);
    WalkCompleteIff(os);
    forall i | 0 <= i < |rows|
      ensures !os[i].Throw? <==> RowOk(rows[i], now)
    {
      assert os[i] == Classify(rows[i], now);
    }
  }

  /** Every offered record is the record of some row of the table. */
  lemma ScanSound(rows: seq<Row>, now: int)
    ensures forall t :: t in ScanRows(rows, now).tokens ==>
      exists i :: 0 <= i < |rows| && Classify(rows[i], now) == Keep(t)
  {
    var os := Outcomes(rows, now);
    WalkSound(os);
    forall t | t in ScanRows(rows, now).tokens
      ensures exists i :: 0 <= i < |rows| && Classify(rows[i], now) == Keep(t)
    {
      var i :| 0 <= i < |os| && os[i] == Keep(t);
      assert Classify(rows[i], now) == os[i];
    }
  }

  /** A walk that completes offers the record of every row on the chain. */
  lemma ScanComplete(rows: seq<Row>, now: int)
    requires ScanRows(rows, now).complete
    ensures forall i :: 0 <= i < |rows| && OnBsc(rows[i]) ==>
      Classify(rows[i], now).Keep? && Classify(rows[i], now).token in ScanRows(rows, now).tokens
  {
    var os := Outcomes(rows, now);
    WalkCompleteIff(os);
    WalkComplete(os);
    forall i | 0 <= i < |rows| && OnBsc(rows[i])
      ensures Classify(rows[i], now).Keep? && Classify(rows[i], now).token in ScanRows(rows, now).tokens
    {
      assert os[i] == Classify(rows[i], now) && !os[i].Throw?;
    }
  }
}
