/** The producer's `__main__` block: each cycle crawls every configured source into the
    dictionary `data_in`, then publishes its JSON text to the Azure queue and to Pub/Sub. */
module Producer {
  import opened Wrappers

  /** Line 108: the sources crawled every cycle, in order. */
  const Sources: seq<string> := ["https://www.finance.yahoo.com", "https://www.google.com/finance/?hl=en"]

  const UrlKey: string := "url"
  const DataKey: string := "data"

  /** Lines 111-116 from `m` on the sources `urls`: each fetched page overwrites the "url" and
      "data" entries. `fetch` stands for `extract_news`, `None` for an exception, which ends
      the program; the second component says whether every fetch succeeded. */
  function Accumulate(m: map<string, string>, urls: seq<string>, fetch: string -> Option<string>): (map<string, string>, bool)
    decreases |urls|
  {
    if urls == [] then (m, true)
    else
      match fetch(urls[0])
      case None => (m, false)
      case Some(page) => Accumulate(m[UrlKey := urls[0]][DataKey := page], urls[1..], fetch)
  }

  /** After a cycle in which every fetch succeeded, the dictionary holds the last source and
      its page: every earlier source was overwritten. */
  lemma {:induction false} LastSourceWins(m: map<string, string>, urls: seq<string>, fetch: string -> Option<string>)
    requires urls != [] && Accumulate(m, urls, fetch).1
    ensures var r := Accumulate(m, urls, fetch).0;
            && UrlKey in r && r[UrlKey] == urls[|urls| - 1]
            && fetch(urls[|urls| - 1]).Some? && DataKey in r && r[DataKey] == fetch(urls[|urls| - 1]).value
    decreases |urls|
  {
    var page := fetch(urls[0]).value;
    var m' := m[UrlKey := urls[0]][DataKey := page];
    if |urls| == 1 {
      assert Accumulate(m', urls[1..], fetch) == (m', true);
    } else {
      LastSourceWins(m', urls[1..], fetch);
      assert urls[1..][|urls[1..]| - 1] == urls[|urls| - 1];
    }
  }

  /** The cycle only ever writes the "url" and "data" keys, and writes both once a fetch has
      succeeded; starting from `{}` (line 109) the dictionary has exactly these two keys. */
  lemma {:induction false} OnlyUrlAndDataKeys(m: map<string, string>, urls: seq<string>, fetch: string -> Option<string>)
    ensures var r := Accumulate(m, urls, fetch).0;
            r.Keys == m.Keys || r.Keys == m.Keys + {UrlKey, DataKey}
    ensures m.Keys == {} ==> var r := Accumulate(m, urls, fetch).0; r.Keys == {} || r.Keys == {UrlKey, DataKey}
    ensures urls != [] && Accumulate(m, urls, fetch).1 ==> Accumulate(m, urls, fetch).0.Keys == m.Keys + {UrlKey, DataKey}
    decreases |urls|
  {
    if urls != [] && fetch(urls[0]).Some? {
      var m' := m[UrlKey := urls[0]][DataKey := fetch(urls[0]).value];
      OnlyUrlAndDataKeys(m', urls[1..], fetch);
      assert m'.Keys == m.Keys + {UrlKey, DataKey};
    }
  }

  /** A completed cycle forgets the previous one: what it leaves behind does not depend on the
      dictionary it started from, as long as that held only the two keys. */
  lemma {:induction false} CycleForgetsPrevious(m1: map<string, string>, m2: map<string, string>, urls: seq<string>,
                                                fetch: string -> Option<string>)
    requires m1.Keys <= {UrlKey, DataKey} && m2.Keys <= {UrlKey, DataKey}
    requires urls != [] && Accumulate(m1, urls, fetch).1
    ensures Accumulate(m1, urls, fetch) == Accumulate(m2, urls, fetch)
  {
    var page := fetch(urls[0]).value;
    var a := m1[UrlKey := urls[0]][DataKey := page];
    var b := m2[UrlKey := urls[0]][DataKey := page];
    assert a == b;
  }

  /** One message sent: to the Azure queue (line 120) or to Pub/Sub (line 122). */
  datatype Publish = ToAzure(payload: string) | ToPubSub(payload: string)

  /** The producer's state across cycles. */
  class Publisher {
    /** `data_in`, kept from one cycle to the next. */
    var dataIn: map<string, string>
    /** Every message delivered, in order. */
    ghost var sent: seq<Publish>

    /** Line 109: the dictionary starts empty and nothing has been sent. */
    constructor ()
      ensures dataIn == map[] && sent == []
    {
      dataIn := map[];
      sent := [];
    }

    /** Lines 111-122, one cycle. `encode` stands for `json.dumps` on a dictionary of text, which
        cannot fail; `azureAccepts` and `pubsubAccepts` say whether each send returns or raises.
        An exception ends the program, so `ok` is false from the first failure on and nothing
        after it happens. */
    method RunCycle(urls: seq<string>, fetch: string -> Option<string>, encode: map<string, string> -> string,
                    azureAccepts: bool, pubsubAccepts: bool) returns (ok: bool)
      modifies this
      ensures dataIn == Accumulate(old(dataIn), urls, fetch).0
      ensures ok <==> Accumulate(old(dataIn), urls, fetch).1 && azureAccepts && pubsubAccepts
      ensures sent == old(sent)
                      + (if Accumulate(old(dataIn), urls, fetch).1 && azureAccepts then [ToAzure(encode(dataIn))] else [])
                      + (if Accumulate(old(dataIn), urls, fetch).1 && azureAccepts && pubsubAccepts
                         then [ToPubSub(encode(dataIn))] else [])
    {
      ghost var start := dataIn;
      var i := 0;
      while i < |urls|
        invariant 0 <= i <= |urls|
        invariant Accumulate(dataIn, urls[i..], fetch) == Accumulate(start, urls, fetch)
        invariant sent == old(sent)
        decreases |urls| - i
      {
        assert urls[i..][0] == urls[i];
        match fetch(urls[i])
        case None =>
          return false;
        case Some(page) =>
          assert urls[i..][1..] == urls[i + 1..];
          dataIn := dataIn[UrlKey := urls[i]][DataKey := page];
        i := i + 1;
      }
      var payload := encode(dataIn);
      if !azureAccepts {
        return false;
      }
      sent := sent + [ToAzure(payload)];
      if !pubsubAccepts {
        return false;
      }
      sent := sent + [ToPubSub(payload)];
      return true;
    }
  }

  /** Both transports receive the same text, Azure's first, and Pub/Sub's only after Azure's
      went through. */
  lemma {:induction false} SamePayloadAzureFirst(before: seq<Publish>, after: seq<Publish>, payload: string,
                                                 azure: bool, pubsub: bool)
    requires after == before + (if azure then [ToAzure(payload)] else []) + (if azure && pubsub then [ToPubSub(payload)] else [])
    ensures |after| - |before| <= 2
    ensures |after| == |before| + 2 ==> after[|before|] == ToAzure(payload) && after[|before| + 1] == ToPubSub(payload)
    ensures |after| > |before| ==> after[|before|].ToAzure?
    ensures forall k :: |before| <= k < |after| ==> after[k].payload == payload
  {
  }

  /** With every fetch succeeding on the configured sources, a cycle publishes the Google
      Finance page and never the Yahoo one. */
  lemma {:induction false} OnlyLastSourcePublished(m: map<string, string>, fetch: string -> Option<string>)
    requires fetch(Sources[0]).Some? && fetch(Sources[1]).Some?
    ensures Accumulate(m, Sources, fetch).1
    ensures Accumulate(m, Sources, fetch).0[UrlKey] == "https://www.google.com/finance/?hl=en"
    ensures Accumulate(m, Sources, fetch).0[DataKey] == fetch(Sources[1]).value
  {
    var m1 := m[UrlKey := Sources[0]][DataKey := fetch(Sources[0]).value];
    var m2 := m1[UrlKey := Sources[1]][DataKey := fetch(Sources[1]).value];
    assert Sources[1..] == [Sources[1]] && Sources[1..][1..] == [];
    assert Accumulate(m, Sources, fetch) == Accumulate(m1, [Sources[1]], fetch);
    assert Accumulate(m1, [Sources[1]], fetch) == Accumulate(m2, [], fetch);
  }
}
