/** The data the invoice generator computes before drawing anything
    (src/lib/generateInvoicePDF.ts): the text sanitiser, the grouping of the selected
    records by currency, the per-currency totals, the row descriptions and the name of
    the saved file. */
module Invoice {
  import opened Wrappers
  import opened Seqs
  import opened JsString
  import opened PaymentRecords

  // ---------------------------------------------------------------------------
  // sanitizeText

  /** The first character of the marker, `Ø`. */
  const MarkerStart: char := '\U{00D8}'

  /** The mis-decoded emoji prefix `Ø=Þ` the sanitiser removes first. */
  const Marker: string := [MarkerStart, '=', '\U{00DE}']

  /** `s` starts with the marker. */
  predicate StartsWithMarker(s: string) {
    |s| >= 3 && s[0] == MarkerStart && s[1] == '=' && s[2] == '\U{00DE}'
  }

  /** `replace(/Ø=Þ/g, '')`: the occurrences found scanning left to right, each
      search resuming after the last one removed. */
  function RemoveMarkers(s: string): (r: string)
    ensures |r| <= |s|
    decreases |s|
  {
    if StartsWithMarker(s) then RemoveMarkers(s[3..])
    else if s == [] then []
    else [s[0]] + RemoveMarkers(s[1..])
  }

  /** `replace(/[^\x00-\x7F]/g, '')`. The next step, `replace(/[\u0080-￿]/g, '')`,
      is the same filter once characters are read as code points: every UTF-16 code
      unit of a character above U+FFFF is a surrogate, inside that range. */
  function KeepAscii(s: string): (r: string)
    ensures |r| <= |s|
    ensures forall k :: 0 <= k < |r| ==> IsAscii(r[k])
    ensures forall c :: c in r <==> c in s && IsAscii(c)
    decreases |s|
  {
    if s == [] then []
    else (if IsAscii(s[0]) then [s[0]] else []) + KeepAscii(s[1..])
  }

  /** `sanitizeText(text)`: an empty text stays empty; otherwise the markers and every
      non-ASCII character go, then the white space at both ends. */
  function SanitizeText(text: string): (r: string)
    ensures text == "" ==> r == ""
    ensures forall k :: 0 <= k < |r| ==> IsAscii(r[k])
    ensures r == [] || (!IsSpace(r[0]) && !IsSpace(r[|r| - 1]))
  {
    if text == "" then ""
    else
      var t := KeepAscii(KeepAscii(RemoveMarkers(text)));
      TrimKeepsAscii(t);
      Trim(t)
  }

  /** Trimming an ASCII string leaves an ASCII string. */
  lemma TrimKeepsAscii(s: string)
    requires forall k :: 0 <= k < |s| ==> IsAscii(s[k])
    ensures forall k :: 0 <= k < |Trim(s)| ==> IsAscii(Trim(s)[k])
  {
    var i := TrimIsSlice(s);
    forall k | 0 <= k < |Trim(s)| ensures IsAscii(Trim(s)[k]) {
      assert Trim(s)[k] == s[i + k];
    }
  }

  /** The filter keeps an ASCII string as it is. */
  lemma {:induction false} KeepAsciiUnchanged(s: string)
    requires forall k :: 0 <= k < |s| ==> IsAscii(s[k])
    ensures KeepAscii(s) == s
    decreases |s|
  {
    if s != [] {
      KeepAsciiUnchanged(s[1..]);
    }
  }

  /** The filter works character by character, so it distributes over concatenation. */
  lemma {:induction false} KeepAsciiAppend(a: string, b: string)
    ensures KeepAscii(a + b) == KeepAscii(a) + KeepAscii(b)
    decreases |a|
  {
    if a != [] {
      assert (a + b)[0] == a[0] && (a + b)[1..] == a[1..] + b;
      KeepAsciiAppend(a[1..], b);
    } else {
      assert a + b == b;
    }
  }

  /** A character above U+007F is deleted wherever it stands, and the text around it
      closes up. */
  lemma KeepAsciiDropsNonAscii(a: string, c: char, b: string)
    requires !IsAscii(c)
    ensures KeepAscii(a + [c] + b) == KeepAscii(a + b)
  {
    KeepAsciiAppend(a + [c], b);
    KeepAsciiAppend(a, [c]);
    assert KeepAscii([c]) == [] by { assert [c][1..] == []; }
    assert KeepAscii(a) + [] == KeepAscii(a);
    KeepAsciiAppend(a, b);
  }

  /** A text without `Ø` holds no marker, so the first step leaves it alone. */
  lemma {:induction false} RemoveMarkersUnchanged(s: string)
    requires forall k :: 0 <= k < |s| ==> s[k] != MarkerStart
    ensures RemoveMarkers(s) == s
    decreases |s|
  {
    if s != [] {
      RemoveMarkersUnchanged(s[1..]);
    }
  }

  /** A marker after text without `Ø` is removed whole: the text before it stays and
      the scan resumes right after it. */
  lemma {:induction false} RemoveMarkersAround(a: string, b: string)
    requires forall k :: 0 <= k < |a| ==> a[k] != MarkerStart
    ensures RemoveMarkers(a + Marker + b) == a + RemoveMarkers(b)
    decreases |a|
  {
    var s := a + Marker + b;
    if a == [] {
      assert s == Marker + b && s[3..] == b;
    } else {
      assert s[0] == a[0] && s[1..] == a[1..] + Marker + b;
      RemoveMarkersAround(a[1..], b);
    }
  }

  /** For ASCII-only text the sanitiser is `trim`: ASCII text holds no marker and
      every `=` in it survives. */
  lemma SanitizeAsciiIsTrim(text: string)
    requires forall k :: 0 <= k < |text| ==> IsAscii(text[k])
    ensures SanitizeText(text) == Trim(text)
  {
    if text != "" {
      assert forall k :: 0 <= k < |text| ==> text[k] != MarkerStart;
      RemoveMarkersUnchanged(text);
      KeepAsciiUnchanged(text);
      var t := KeepAscii(KeepAscii(RemoveMarkers(text)));
      assert t == text;
      assert SanitizeText(text) == Trim(t);
    }
  }

  /** A marker between two ASCII texts goes with its `=`, while the `=` characters of
      the texts around it stay. */
  lemma SanitizeDropsMarker(a: string, b: string)
    requires forall k :: 0 <= k < |a| ==> IsAscii(a[k])
    requires forall k :: 0 <= k < |b| ==> IsAscii(b[k])
    ensures SanitizeText(a + Marker + b) == Trim(a + b)
  {
    var s := a + Marker + b;
    assert s != "" by { assert |s| >= 3; }
    assert forall k :: 0 <= k < |a| ==> a[k] != MarkerStart;
    assert forall k :: 0 <= k < |b| ==> b[k] != MarkerStart;
    RemoveMarkersAround(a, b);
    RemoveMarkersUnchanged(b);
    KeepAsciiUnchanged(a + b);
  }

  /** The marker scan resumes after each removal and does not look again: in `ØØ=Þ=Þ`
      it removes the marker at offset 1, which leaves a new marker behind. */
  lemma RemoveMarkersSinglePass(s: string)
    requires s == [MarkerStart] + Marker + "=" + ['\U{00DE}']
    ensures RemoveMarkers(s) == Marker
  {
    var tail := "=" + ['\U{00DE}'];
    assert s[1..] == [] + Marker + tail;
    assert !StartsWithMarker(s);
    RemoveMarkersAround([], tail);
    RemoveMarkersUnchanged(tail);
  }

  /** The ASCII filter deletes the `Ø` and `Þ` of a marker and keeps its `=`. */
  lemma KeepAsciiOfMarker()
    ensures KeepAscii(Marker) == "="
  {
    var tail := "=" + ['\U{00DE}'];
    assert Marker == [] + [MarkerStart] + tail;
    KeepAsciiDropsNonAscii([], MarkerStart, tail);
    assert tail == "=" + ['\U{00DE}'] + [];
    KeepAsciiDropsNonAscii("=", '\U{00DE}', []);
    assert "=" + [] == "=";
    KeepAsciiUnchanged("=");
  }

  /** So the marker the scan leaves behind in `ØØ=Þ=Þ` is not removed whole: the
      ASCII filter takes its `Ø` and `Þ`, and its `=` survives. */
  lemma SanitizeSinglePassExample(s: string)
    requires s == [MarkerStart] + Marker + "=" + ['\U{00DE}']
    ensures SanitizeText(s) == "="
  {
    RemoveMarkersSinglePass(s);
    KeepAsciiOfMarker();
    KeepAsciiUnchanged("=");
    TrimUnchanged("=");
    assert s != "";
  }

  // ---------------------------------------------------------------------------
  // Grouping by currency and the totals

  /** The currency of each record, in order. */
  function Currencies(ms: seq<Message>): (cs: seq<Currency>)
    ensures |cs| == |ms| && forall k :: 0 <= k < |ms| ==> cs[k] == ms[k].currency
  {
    seq(|ms|, k requires 0 <= k < |ms| => ms[k].currency)
  }

  /** The keys of the grouped records, in the order `Object.entries` lists them: the
      order in which each currency is first met. The keys are the code strings, which
      are distinct for distinct currencies (`CodeInjective`). */
  function GroupOrder(ms: seq<Message>): seq<Currency>
  {
    Dedup(Currencies(ms))
  }

  /** The records of currency `c`, in their order. */
  function Group(ms: seq<Message>, c: Currency): seq<Message>
    decreases |ms|
  {
    if ms == [] then []
    else Group(ms[..|ms| - 1], c) + (if ms[|ms| - 1].currency == c then [ms[|ms| - 1]] else [])
  }

  /** The accumulator the `reduce` builds: the record's array, created empty when its
      currency is new, gets each record pushed onto it in turn. */
  function GroupsOf(ms: seq<Message>): map<Currency, seq<Message>>
    decreases |ms|
  {
    if ms == [] then map[]
    else
      var g, m := GroupsOf(ms[..|ms| - 1]), ms[|ms| - 1];
      g[m.currency := (if m.currency in g then g[m.currency] else []) + [m]]
  }

  /** Appending a record adds its currency to the order when it is new. */
  lemma GroupOrderSnoc(ms: seq<Message>, m: Message)
    ensures GroupOrder(ms + [m]) == GroupOrder(ms) + (if m.currency in Currencies(ms) then [] else [m.currency])
  {
    assert Currencies(ms + [m]) == Currencies(ms) + [m.currency];
    DedupSnoc(Currencies(ms), m.currency);
  }

  /** Appending a record adds it to the end of its own group only. */
  lemma GroupSnoc(ms: seq<Message>, m: Message, c: Currency)
    ensures Group(ms + [m], c) == Group(ms, c) + (if m.currency == c then [m] else [])
  {
    assert (ms + [m])[..|ms|] == ms;
  }

  /** The accumulator holds one array per currency met, and the array of a currency
      is exactly its records, in selection order. */
  lemma {:induction false} GroupsOfGroups(ms: seq<Message>, c: Currency)
    ensures c in GroupsOf(ms) <==> c in Currencies(ms)
    ensures c in GroupsOf(ms) ==> GroupsOf(ms)[c] == Group(ms, c)
    decreases |ms|
  {
    if ms != [] {
      var init, m := ms[..|ms| - 1], ms[|ms| - 1];
      assert ms == init + [m];
      assert Currencies(ms) == Currencies(init) + [m.currency];
      GroupsOfGroups(init, c);
      GroupSnoc(init, m, c);
      if c == m.currency && c !in Currencies(init) {
        GroupEmpty(init, c);
      }
    }
  }

  /** One step of the reduce, on a prefix of the selection. */
  lemma GroupStep(messages: seq<Message>, i: nat)
    requires i < |messages|
    ensures var m, g := messages[i], GroupsOf(messages[..i]);
      && GroupOrder(messages[..i + 1]) == GroupOrder(messages[..i]) + (if m.currency in g then [] else [m.currency])
      && GroupsOf(messages[..i + 1]) == g[m.currency := (if m.currency in g then g[m.currency] else []) + [m]]
  {
    assert messages[..i + 1] == messages[..i] + [messages[i]];
    assert messages[..i + 1][..i] == messages[..i];
    GroupOrderSnoc(messages[..i], messages[i]);
    GroupsOfGroups(messages[..i], messages[i].currency);
  }

  /** `data.messages.reduce(...)` into `groupedMessages`, with the keys in insertion
      order beside the map. */
  method GroupByCurrency(messages: seq<Message>) returns (order: seq<Currency>, groups: map<Currency, seq<Message>>)
    ensures order == GroupOrder(messages)
    ensures groups == GroupsOf(messages)
    ensures forall c :: c in groups <==> c in order
    ensures forall c :: c in groups ==> groups[c] == Group(messages, c)
  {
    order, groups := [], map[];
    for i := 0 to |messages|
      invariant order == GroupOrder(messages[..i])
      invariant groups == GroupsOf(messages[..i])
    {
      var m := messages[i];
      GroupStep(messages, i);
      if m.currency !in groups {
        groups := groups[m.currency := []];
        order := order + [m.currency];
      }
      groups := groups[m.currency := groups[m.currency] + [m]];
    }
    assert messages[..|messages|] == messages;
    GroupOrderKeys(messages);
  }

  /** The order lists exactly the keys of the accumulator, and each key's array is
      its currency's records. */
  lemma GroupOrderKeys(ms: seq<Message>)
    ensures forall c :: c in GroupsOf(ms) <==> c in GroupOrder(ms)
    ensures forall c :: c in GroupsOf(ms) ==> GroupsOf(ms)[c] == Group(ms, c)
  {
    forall c ensures (c in GroupsOf(ms) <==> c in GroupOrder(ms)) && (c in GroupsOf(ms) ==> GroupsOf(ms)[c] == Group(ms, c)) {
      GroupsOfGroups(ms, c);
      DedupSameElements(Currencies(ms), c);
    }
  }

  /** A currency no record carries has an empty group. */
  lemma {:induction false} GroupEmpty(ms: seq<Message>, c: Currency)
    requires c !in Currencies(ms)
    ensures Group(ms, c) == []
    decreases |ms|
  {
    if ms != [] {
      var init := ms[..|ms| - 1];
      assert Currencies(ms) == Currencies(init) + [ms[|ms| - 1].currency];
      GroupEmpty(init, c);
    }
  }

  /** Every record lands in the group of its own currency and in no other. */
  lemma {:induction false} GroupMembers(ms: seq<Message>, c: Currency, m: Message)
    ensures m in Group(ms, c) <==> m in ms && m.currency == c
    decreases |ms|
  {
    if ms != [] {
      var init := ms[..|ms| - 1];
      assert ms == init + [ms[|ms| - 1]];
      GroupMembers(init, c, m);
    }
  }

  /** Grouping distributes over concatenation: within a group, records keep the order
      they had in the selection. */
  lemma {:induction false} GroupAppend(a: seq<Message>, b: seq<Message>, c: Currency)
    ensures Group(a + b, c) == Group(a, c) + Group(b, c)
    decreases |b|
  {
    if b != [] {
      var init := b[..|b| - 1];
      assert (a + b)[..|a + b| - 1] == a + init;
      GroupAppend(a, init, c);
    } else {
      assert a + b == a;
    }
  }

  /** The groups come in the order of their currency's first record, and each is
      listed once. */
  lemma GroupOrderFirstSeen(ms: seq<Message>)
    ensures forall c :: c in GroupOrder(ms) <==> exists k :: 0 <= k < |ms| && ms[k].currency == c
    ensures forall i, j :: 0 <= i < j < |GroupOrder(ms)| ==> GroupOrder(ms)[i] != GroupOrder(ms)[j]
    ensures forall i, j :: 0 <= i < j < |GroupOrder(ms)| ==>
      IndexOf(Currencies(ms), GroupOrder(ms)[i]) < IndexOf(Currencies(ms), GroupOrder(ms)[j])
  {
    forall c ensures c in GroupOrder(ms) <==> exists k :: 0 <= k < |ms| && ms[k].currency == c {
      DedupSameElements(Currencies(ms), c);
      if c in Currencies(ms) {
        var k :| 0 <= k < |ms| && Currencies(ms)[k] == c;
        assert ms[k].currency == c;
      }
    }
    DedupNoDuplicates(Currencies(ms));
    DedupFirstSeenOrder(Currencies(ms));
  }

  /** `messages.reduce((sum, msg) => sum + msg.amount, 0)`, in exact arithmetic. */
  function SumAmounts(ms: seq<Message>): real
    decreases |ms|
  {
    if ms == [] then 0.0 else SumAmounts(ms[..|ms| - 1]) + ms[|ms| - 1].amount
  }

  /** One entry of `totals`. */
  datatype CurrencyTotal = CurrencyTotal(currency: Currency, symbol: string, name: string, total: real)

  /** `Object.entries(groupedMessages).map(...)`: the entry of each group in order.
      Reading `.symbol` of an unregistered code throws; the failure names the group. */
  function Totals(order: seq<Currency>, groups: map<Currency, seq<Message>>): (r: Result<seq<CurrencyTotal>, Currency>)
    requires forall c :: c in order ==> c in groups
    ensures r.Success? ==> |r.value| == |order|
    ensures r.Failure? ==> r.error in order && Lookup(r.error).None?
    decreases |order|
  {
    if order == [] then Success([])
    else
      match Lookup(order[0])
      case None => Failure(order[0])
      case Some(info) =>
        var first := CurrencyTotal(order[0], info.symbol, info.name, SumAmounts(groups[order[0]]));
        match Totals(order[1..], groups)
        case Failure(c) => Failure(c)
        case Success(ts) => Success([first] + ts)
  }

  /** The totals are computed exactly when every group's currency is registered; each
      entry carries its currency's symbol and name and the sum of its group. */
  lemma {:induction false} TotalsEntries(order: seq<Currency>, groups: map<Currency, seq<Message>>)
    requires forall c :: c in order ==> c in groups
    ensures Totals(order, groups).Success? <==> forall k :: 0 <= k < |order| ==> Lookup(order[k]).Some?
    ensures Totals(order, groups).Success? ==> forall k :: 0 <= k < |order| ==>
      && Totals(order, groups).value[k].currency == order[k]
      && Lookup(order[k]) == Some(CurrencyInfo(Totals(order, groups).value[k].symbol, Totals(order, groups).value[k].name))
      && Totals(order, groups).value[k].total == SumAmounts(groups[order[k]])
    decreases |order|
  {
    if order != [] {
      TotalsEntries(order[1..], groups);
      assert forall k :: 1 <= k < |order| ==> order[k] == order[1..][k - 1];
      var r := Totals(order, groups);
      if r.Success? {
        var ts := Totals(order[1..], groups).value;
        assert r.value[1..] == ts;
      }
    }
  }

  /** The map throws at the first group whose currency is not registered. */
  lemma {:induction false} TotalsFailAtFirstUnregistered(order: seq<Currency>, groups: map<Currency, seq<Message>>, k: nat)
    requires forall c :: c in order ==> c in groups
    requires k < |order| && Lookup(order[k]).None? && forall j :: 0 <= j < k ==> Lookup(order[j]).Some?
    ensures Totals(order, groups) == Failure(order[k])
    decreases k
  {
    if k > 0 {
      assert forall j :: 0 <= j < k - 1 ==> order[1..][j] == order[j + 1];
      TotalsFailAtFirstUnregistered(order[1..], groups, k - 1);
    }
  }

  /** The sum of the totals column. */
  function SumTotals(ts: seq<CurrencyTotal>): real
  {
    if ts == [] then 0.0 else ts[0].total + SumTotals(ts[1..])
  }

  /** The sum of the group sums for the listed currencies. */
  function SumOver(keys: seq<Currency>, ms: seq<Message>): real
  {
    if keys == [] then 0.0 else SumAmounts(Group(ms, keys[0])) + SumOver(keys[1..], ms)
  }

  predicate Distinct(keys: seq<Currency>) {
    forall i, j :: 0 <= i < j < |keys| ==> keys[i] != keys[j]
  }

  /** The head of a list of distinct currencies is not in its tail, which is distinct. */
  lemma DistinctTail(keys: seq<Currency>)
    requires Distinct(keys) && keys != []
    ensures Distinct(keys[1..]) && keys[0] !in keys[1..]
  {
    forall i, j | 0 <= i < j < |keys[1..]| ensures keys[1..][i] != keys[1..][j] {
      assert keys[1..][i] == keys[i + 1] && keys[1..][j] == keys[j + 1];
    }
    forall j | 0 <= j < |keys[1..]| ensures keys[1..][j] != keys[0] {
      assert keys[1..][j] == keys[j + 1];
    }
  }

  /** One more record adds its amount to the sum. */
  lemma SumAmountsSnoc(ms: seq<Message>, m: Message)
    ensures SumAmounts(ms + [m]) == SumAmounts(ms) + m.amount
  {
    assert (ms + [m])[..|ms|] == ms;
  }

  /** The totals column adds up the group sums. */
  lemma {:induction false} SumTotalsIsSumOver(keys: seq<Currency>, ms: seq<Message>)
    requires forall c :: c in keys ==> c in GroupsOf(ms)
    requires Totals(keys, GroupsOf(ms)).Success?
    ensures SumTotals(Totals(keys, GroupsOf(ms)).value) == SumOver(keys, ms)
    decreases |keys|
  {
    if keys != [] {
      GroupsOfGroups(ms, keys[0]);
      SumTotalsIsSumOver(keys[1..], ms);
    }
  }

  /** No records, no money in any group. */
  lemma {:induction false} SumOverNothing(keys: seq<Currency>)
    ensures SumOver(keys, []) == 0.0
    decreases |keys|
  {
    if keys != [] {
      SumOverNothing(keys[1..]);
    }
  }

  /** A new record adds its amount to the group sums once when its currency is listed
      (once) and not at all otherwise. */
  lemma {:induction false} SumOverSnoc(keys: seq<Currency>, ms: seq<Message>, m: Message)
    requires Distinct(keys)
    ensures SumOver(keys, ms + [m]) == SumOver(keys, ms) + (if m.currency in keys then m.amount else 0.0)
    decreases |keys|
  {
    if keys != [] {
      var k0, rest := keys[0], keys[1..];
      assert keys == [k0] + rest;
      DistinctTail(keys);
      SumOverSnoc(rest, ms, m);
      GroupSnoc(ms, m, k0);
      if m.currency == k0 {
        SumAmountsSnoc(Group(ms, k0), m);
        assert SumOver(rest, ms + [m]) == SumOver(rest, ms);
      } else {
        assert Group(ms + [m], k0) == Group(ms, k0);
      }
    }
  }

  /** Summing each currency's group over distinct currencies that cover every record
      gives the sum of all the records. */
  lemma {:induction false} SumOverAll(keys: seq<Currency>, ms: seq<Message>)
    requires Distinct(keys)
    requires forall k :: 0 <= k < |ms| ==> ms[k].currency in keys
    ensures SumOver(keys, ms) == SumAmounts(ms)
    decreases |ms|
  {
    if ms == [] {
      SumOverNothing(keys);
    } else {
      var init, m := ms[..|ms| - 1], ms[|ms| - 1];
      assert ms == init + [m];
      SumOverAll(keys, init);
      SumOverSnoc(keys, init, m);
    }
  }

  /** No amount is lost or counted twice: when every currency is registered, the totals
      add up to the sum of all the selected records. */
  lemma TotalsConserveAmounts(ms: seq<Message>)
    requires forall c :: c in GroupOrder(ms) ==> c in GroupsOf(ms)
    requires Totals(GroupOrder(ms), GroupsOf(ms)).Success?
    ensures SumTotals(Totals(GroupOrder(ms), GroupsOf(ms)).value) == SumAmounts(ms)
  {
    var keys := GroupOrder(ms);
    SumTotalsIsSumOver(keys, ms);
    DedupNoDuplicates(Currencies(ms));
    forall k | 0 <= k < |ms| ensures ms[k].currency in keys {
      DedupSameElements(Currencies(ms), ms[k].currency);
      assert Currencies(ms)[k] == ms[k].currency;
    }
    SumOverAll(keys, ms);
  }

  /** The grouping and the totals, as the invoice computes them. */
  method ComputeTotals(messages: seq<Message>) returns (r: Result<seq<CurrencyTotal>, Currency>)
    ensures r.Success? <==> forall c :: c in Currencies(messages) ==> c in SupportedCurrencies
    ensures r.Success? ==> SumTotals(r.value) == SumAmounts(messages)
    ensures forall c :: c in GroupOrder(messages) <==> c in GroupsOf(messages)
    ensures r == Totals(GroupOrder(messages), GroupsOf(messages))
  {
    var order, groups := GroupByCurrency(messages);
    r := Totals(order, groups);
    TotalsSucceedIffRegistered(messages);
    if r.Success? {
      TotalsConserveAmounts(messages);
    }
  }

  /** The totals fail exactly when some record's currency is not in the registry:
      every currency of a record heads a group, and only those do. */
  lemma TotalsSucceedIffRegistered(ms: seq<Message>)
    ensures forall c :: c in GroupOrder(ms) ==> c in GroupsOf(ms)
    ensures Totals(GroupOrder(ms), GroupsOf(ms)).Success? <==>
      forall c :: c in Currencies(ms) ==> c in SupportedCurrencies
  {
    GroupOrderKeys(ms);
    var order := GroupOrder(ms);
    forall c ensures c in Currencies(ms) <==> c in order {
      DedupSameElements(Currencies(ms), c);
    }
    TotalsEntries(order, GroupsOf(ms));
    assert (forall k :: 0 <= k < |order| ==> Lookup(order[k]).Some?) <==> forall c :: c in order ==> c in SupportedCurrencies;
  }

  // ---------------------------------------------------------------------------
  // Row descriptions and the file name

  const PaymentFrom: string := "Payment from "

  /** `message.content.trim() || \`Payment from ${message.sender}\``: the fallback is
      chosen before sanitising. */
  function RawDescription(m: Message): string
  {
    if Trim(m.content) != "" then Trim(m.content) else PaymentFrom + m.sender
  }

  /** The description printed in a record's row. */
  function Description(m: Message): string
  {
    SanitizeText(RawDescription(m))
  }

  /** A record with ASCII content that is not blank is described by its trimmed
      content. */
  lemma DescriptionOfAsciiContent(m: Message)
    requires forall k :: 0 <= k < |m.content| ==> IsAscii(m.content[k])
    requires Trim(m.content) != ""
    ensures Description(m) == Trim(m.content)
  {
    TrimKeepsAscii(m.content);
    SanitizeAsciiIsTrim(Trim(m.content));
    TrimIdempotent(m.content);
  }

  /** A record with blank content is described as a payment from its sender, with the
      markers and the non-ASCII characters taken out of the sender's name: the
      description starts with `Payment from` whatever the name holds. */
  lemma DescriptionOfBlankContent(m: Message)
    requires Trim(m.content) == ""
    ensures Description(m) == Trim(PaymentFrom + KeepAscii(RemoveMarkers(m.sender)))
    ensures PaymentFrom[..12] <= Description(m)
  {
    var p := PaymentFrom;
    PaymentFromFacts(p);
    var s := p + m.sender;
    assert s != "" by { assert |s| >= |p|; }
    RemoveMarkersKeepsPlain(p, m.sender);
    var u := KeepAscii(RemoveMarkers(m.sender));
    KeepAsciiKeepsPlain(p, RemoveMarkers(m.sender));
    KeepAsciiKeepsPlain(p, u);
    KeepAsciiUnchanged(u);
    var t := p + KeepAscii(u);
    assert t == p + u;
    assert t[..13] == p;
    TrimKeepsPrefix(t, 12);
  }

  /** With an ASCII sender name, a record with blank content is described as
      `Payment from` and the name, trimmed. */
  lemma DescriptionOfBlankContentAsciiSender(m: Message)
    requires Trim(m.content) == ""
    requires forall k :: 0 <= k < |m.sender| ==> IsAscii(m.sender[k])
    ensures Description(m) == Trim(PaymentFrom + m.sender)
  {
    DescriptionOfBlankContent(m);
    assert forall k :: 0 <= k < |m.sender| ==> m.sender[k] != MarkerStart;
    RemoveMarkersUnchanged(m.sender);
    KeepAsciiUnchanged(m.sender);
  }

  /** A record from Bob with no content reads `Payment from Bob`. */
  lemma DescriptionFromBobExample(m: Message)
    requires m.content == "" && m.sender == "Bob"
    ensures Description(m) == "Payment from Bob"
  {
    assert Trim(m.content) == "" by { TrimUnchanged(m.content); }
    BobIsAscii(m.sender);
    DescriptionOfBlankContentAsciiSender(m);
    PaymentFromBob(PaymentFrom + m.sender);
  }

  lemma BobIsAscii(s: string)
    requires s == "Bob"
    ensures forall k :: 0 <= k < |s| ==> IsAscii(s[k])
  {
  }

  lemma PaymentFromBob(d: string)
    requires d == PaymentFrom + "Bob"
    ensures Trim(d) == "Payment from Bob"
  {
    assert d == "Payment from Bob";
    TrimUnchanged(d);
  }

  /** The characters of `Payment from `. */
  lemma PaymentFromFacts(p: string)
    requires p == PaymentFrom
    ensures |p| == 13 && !IsSpace(p[0]) && !IsSpace(p[11])
    ensures forall k :: 0 <= k < |p| ==> IsAscii(p[k]) && p[k] != MarkerStart
  {
  }

  /** Text without `Ø` in front passes the first step unchanged. */
  lemma {:induction false} RemoveMarkersKeepsPlain(a: string, b: string)
    requires forall k :: 0 <= k < |a| ==> a[k] != MarkerStart
    ensures RemoveMarkers(a + b) == a + RemoveMarkers(b)
    decreases |a|
  {
    if a != [] {
      var s := a + b;
      assert s[0] == a[0] && s[1..] == a[1..] + b;
      RemoveMarkersKeepsPlain(a[1..], b);
    } else {
      assert a + b == b;
    }
  }

  /** The non-ASCII filter leaves an ASCII prefix alone. */
  lemma KeepAsciiKeepsPlain(p: string, x: string)
    requires forall k :: 0 <= k < |p| ==> IsAscii(p[k])
    ensures KeepAscii(p + x) == p + KeepAscii(x)
  {
    KeepAsciiAppend(p, x);
    KeepAsciiUnchanged(p);
  }

  /** Trimming keeps a prefix that starts and ends without white space. */
  lemma TrimKeepsPrefix(s: string, n: nat)
    requires 0 < n <= |s| && !IsSpace(s[0]) && !IsSpace(s[n - 1])
    ensures s[..n] <= Trim(s)
  {
    var i := TrimIsSlice(s);
    var t := Trim(s);
    assert IsSpace(s[0]) || i == 0;
    assert IsSpace(s[n - 1]) || n <= i + |t|;
    assert t[..n] == s[..n];
  }

  /** Content that is not blank but has no ASCII character leaves the row without a
      description: the fallback is decided before the sanitiser empties it. */
  lemma DescriptionOfEmojiContent(m: Message)
    requires m.content == "\U{1F4B0}"
    ensures Description(m) == ""
  {
    assert !IsSpace(m.content[0]);
    assert Trim(m.content) == m.content;
    assert RemoveMarkers(m.content) == m.content;
    assert KeepAscii(m.content) == "" by { assert m.content[1..] == []; }
  }

  /** `replace(/[^a-zA-Z0-9]/g, '-')` on one character: every UTF-16 code unit that is
      not an ASCII letter or digit becomes a `-`. */
  function DashOther(c: char): string
  {
    if IsAsciiAlnum(c) then [c] else if (c as int) > 0xFFFF then "--" else "-"
  }

  /** `replace(/[^a-zA-Z0-9]/g, '-')` */
  function DashOthers(s: string): string
    decreases |s|
  {
    if s == [] then [] else DashOther(s[0]) + DashOthers(s[1..])
  }

  /** `invoiceNumber.replace(/[^a-zA-Z0-9]/g, '-').toLowerCase()`. The dashed string is
      ASCII, where `toLowerCase` only lowers `A`-`Z`. */
  function Slug(number: string): string
  {
    AsciiLowerString(DashOthers(number))
  }

  /** The name the PDF is saved under. */
  function InvoiceFileName(number: string): string
  {
    "invoice-" + Slug(number) + ".pdf"
  }

  predicate IsSlugChar(c: char) { 'a' <= c <= 'z' || IsDigit(c) || c == '-' }

  /** Dashing keeps one code unit per code unit and leaves only letters, digits and
      dashes. */
  lemma {:induction false} DashOthersShape(s: string)
    ensures |DashOthers(s)| == Utf16Length(s)
    ensures forall k :: 0 <= k < |DashOthers(s)| ==> IsAsciiAlnum(DashOthers(s)[k]) || DashOthers(s)[k] == '-'
    decreases |s|
  {
    if s != [] {
      DashOthersShape(s[1..]);
      var h, t := DashOther(s[0]), DashOthers(s[1..]);
      forall k | 0 <= k < |h + t| ensures IsAsciiAlnum((h + t)[k]) || (h + t)[k] == '-' {
        if k >= |h| {
          assert (h + t)[k] == t[k - |h|];
        }
      }
    }
  }

  /** The slug has one character per UTF-16 code unit of the number, each a lower-case
      ASCII letter, a digit or `-`. */
  lemma SlugShape(number: string)
    ensures |Slug(number)| == Utf16Length(number)
    ensures forall k :: 0 <= k < |Slug(number)| ==> IsSlugChar(Slug(number)[k])
  {
    DashOthersShape(number);
    var d := DashOthers(number);
    forall k | 0 <= k < |Slug(number)| ensures IsSlugChar(Slug(number)[k]) {
      assert Slug(number)[k] == AsciiLower(d[k]);
    }
  }

  /** The file name is the slug between `invoice-` and `.pdf`. */
  lemma FileNameShape(number: string)
    ensures |InvoiceFileName(number)| == Utf16Length(number) + 12
    ensures InvoiceFileName(number) == "invoice-" + Slug(number) + ".pdf"
    ensures "invoice-" <= InvoiceFileName(number)
    ensures InvoiceFileName(number)[|Slug(number)| + 8..] == ".pdf"
  {
    SlugShape(number);
    var f, g := InvoiceFileName(number), Slug(number);
    assert f[..8] == "invoice-";
    assert f[|g| + 8..] == ".pdf";
  }

  /** Dashing works one character at a time, so it distributes over concatenation. */
  lemma {:induction false} DashOthersAppend(a: string, b: string)
    ensures DashOthers(a + b) == DashOthers(a) + DashOthers(b)
    decreases |a|
  {
    if a == [] {
      assert a + b == b;
    } else {
      assert (a + b)[0] == a[0] && (a + b)[1..] == a[1..] + b;
      DashOthersAppend(a[1..], b);
    }
  }

  /** So does the slug. */
  lemma SlugAppend(a: string, b: string)
    ensures Slug(a + b) == Slug(a) + Slug(b)
  {
    DashOthersAppend(a, b);
    var x, y := DashOthers(a), DashOthers(b);
    assert forall k :: 0 <= k < |x + y| ==> (x + y)[k] == if k < |x| then x[k] else y[k - |x|];
  }

  /** The slug of one character: its lower-case form when it is an ASCII letter or
      digit, `-` for any other character of one UTF-16 code unit and `--` for one of
      two. */
  lemma SlugOfChar(c: char)
    ensures Slug([c]) == if IsAsciiAlnum(c) then [AsciiLower(c)] else if (c as int) > 0xFFFF then "--" else "-"
  {
    assert DashOthers([c]) == DashOther(c) by { assert [c][1..] == []; }
  }

  /** Each character of the number shows in the slug at its UTF-16 offset: lower-cased
      when it is an ASCII letter or digit, as `-` otherwise, and a character above
      U+FFFF as `--`. */
  lemma SlugAt(number: string, k: nat)
    requires k < |number|
    ensures var i, c := Utf16Length(number[..k]), number[k];
      && i < |Slug(number)|
      && Slug(number)[i] == (if IsAsciiAlnum(c) then AsciiLower(c) else '-')
      && ((c as int) > 0xFFFF ==> i + 1 < |Slug(number)| && Slug(number)[i + 1] == '-')
  {
    var a, c, b := number[..k], number[k], number[k + 1..];
    assert number == a + [c] + b;
    SlugAppend(a + [c], b);
    SlugAppend(a, [c]);
    SlugShape(a);
    SlugOfChar(c);
  }

  /** A string without characters above U+FFFF has one UTF-16 code unit per character. */
  lemma {:induction false} Utf16LengthOfBmp(s: string)
    requires forall k :: 0 <= k < |s| ==> (s[k] as int) <= 0xFFFF
    ensures Utf16Length(s) == |s|
    decreases |s|
  {
    if s != [] {
      Utf16LengthOfBmp(s[1..]);
    }
  }

  /** For a number without characters above U+FFFF the slug is the number with every
      character but an ASCII letter or digit replaced by `-`, lower-cased. */
  lemma SlugOfBmp(number: string)
    requires forall k :: 0 <= k < |number| ==> (number[k] as int) <= 0xFFFF
    ensures |Slug(number)| == |number|
    ensures forall k :: 0 <= k < |number| ==>
      Slug(number)[k] == if IsAsciiAlnum(number[k]) then AsciiLower(number[k]) else '-'
  {
    SlugShape(number);
    Utf16LengthOfBmp(number);
    forall k | 0 <= k < |number|
      ensures Slug(number)[k] == if IsAsciiAlnum(number[k]) then AsciiLower(number[k]) else '-'
    {
      SlugAt(number, k);
      Utf16LengthOfBmp(number[..k]);
    }
  }

  /** Invoice `INV/7` is saved as `invoice-inv-7.pdf`. */
  lemma FileNameExample()
    ensures InvoiceFileName("INV/7") == "invoice-inv-7.pdf"
  {
    var n := "INV/7";
    SlugOfBmp(n);
    var g := Slug(n);
    assert g == "inv-7" by {
      assert g[0] == 'i' && g[1] == 'n' && g[2] == 'v' && g[3] == '-' && g[4] == '7';
    }
  }

  /** A slug is its own slug: making a file name from it again changes nothing. */
  lemma SlugIdempotent(number: string)
    ensures Slug(Slug(number)) == Slug(number)
  {
    SlugShape(number);
    SlugOfPlainSlugChars(Slug(number));
  }

  /** A string of lower-case letters, digits and dashes is its own slug. */
  lemma {:induction false} SlugOfPlainSlugChars(s: string)
    requires forall k :: 0 <= k < |s| ==> IsSlugChar(s[k])
    ensures Slug(s) == s
    decreases |s|
  {
    if s != [] {
      SlugOfPlainSlugChars(s[1..]);
      assert DashOthers(s) == DashOther(s[0]) + DashOthers(s[1..]);
    }
  }
}
