/** The notifier: it reads every user's topic preferences and the three most recent news
    documents, collects for each user the articles whose topic the user follows, and sends
    each user with at least one match a newsletter built from an HTML template. */
module Notifier {
  import opened Wrappers
  import opened PyStrings

  /** One article of a news document. */
  datatype Article = Article(title: string, summary: string, link: string, topic: string)

  /** A document of `all_news` with its `_id` projected out: source name to articles, in the
      order the document stores its keys. */
  type Document = seq<(string, seq<Article>)>

  /** Lines 104-110: one matched article, tagged with the source it came from. */
  datatype Item = Item(title: string, summary: string, link: string, topic: string, source: string)

  function ItemOf(source: string, a: Article): Item
  {
    Item(a.title, a.summary, a.link, a.topic, source)
  }

  // ---------------------------------------------------------------------------------------
  // Matching (lines 100-111)

  /** Lines 102-111 on the articles of one source. */
  function ArticleMatches(source: string, arts: seq<Article>, topics: seq<string>): (r: seq<Item>)
    ensures |r| <= |arts|
    ensures forall i :: 0 <= i < |r| ==> r[i].topic in topics && r[i].source == source
  {
    if arts == [] then []
    else
      var a := arts[|arts| - 1];
      ArticleMatches(source, arts[..|arts| - 1], topics) + (if a.topic in topics then [ItemOf(source, a)] else [])
  }

  /** Lines 101-111 on one document, its sources in stored order. */
  function SourceMatches(doc: Document, topics: seq<string>): (r: seq<Item>)
    ensures forall i :: 0 <= i < |r| ==> r[i].topic in topics
  {
    if doc == [] then []
    else
      var e := doc[|doc| - 1];
      SourceMatches(doc[..|doc| - 1], topics) + ArticleMatches(e.0, e.1, topics)
  }

  /** Lines 99-111: a user's matched list over the scanned documents. Every item has a topic
      the user follows. */
  function Matches(docs: seq<Document>, topics: seq<string>): (r: seq<Item>)
    ensures forall i :: 0 <= i < |r| ==> r[i].topic in topics
  {
    if docs == [] then []
    else Matches(docs[..|docs| - 1], topics) + SourceMatches(docs[|docs| - 1], topics)
  }

  /** Every (source, article) pair of the documents, in scan order: documents, then sources,
      then articles. */
  function Flatten(docs: seq<Document>): (r: seq<(string, Article)>)
  {
    if docs == [] then [] else Flatten(docs[..|docs| - 1]) + FlattenDoc(docs[|docs| - 1])
  }

  function FlattenDoc(doc: Document): (r: seq<(string, Article)>)
  {
    if doc == [] then [] else FlattenDoc(doc[..|doc| - 1]) + Pairs(doc[|doc| - 1].0, doc[|doc| - 1].1)
  }

  function Pairs(source: string, arts: seq<Article>): (r: seq<(string, Article)>)
    ensures |r| == |arts| && forall i :: 0 <= i < |arts| ==> r[i] == (source, arts[i])
  {
    seq(|arts|, i requires 0 <= i < |arts| => (source, arts[i]))
  }

  /** A plain filter over (source, article) pairs: keep those whose topic is followed, in order. */
  function Selected(ps: seq<(string, Article)>, topics: seq<string>): (r: seq<Item>)
    ensures |r| <= |ps|
  {
    if ps == [] then []
    else
      var p := ps[|ps| - 1];
      Selected(ps[..|ps| - 1], topics) + (if p.1.topic in topics then [ItemOf(p.0, p.1)] else [])
  }

  lemma {:induction false} SelectedAppend(a: seq<(string, Article)>, b: seq<(string, Article)>, topics: seq<string>)
    ensures Selected(a + b, topics) == Selected(a, topics) + Selected(b, topics)
    decreases |b|
  {
    if b != [] {
      var b' := b[..|b| - 1];
      assert (a + b)[..|a + b| - 1] == a + b';
      SelectedAppend(a, b', topics);
    } else {
      assert a + b == a;
    }
  }

  /** An item is selected exactly when it comes from a pair whose topic is followed. */
  lemma {:induction false} SelectedMembership(ps: seq<(string, Article)>, topics: seq<string>, it: Item)
    ensures it in Selected(ps, topics) <==> exists k :: 0 <= k < |ps| && ps[k].1.topic in topics && it == ItemOf(ps[k].0, ps[k].1)
    decreases |ps|
  {
    if ps != [] {
      var q := ps[..|ps| - 1];
      SelectedMembership(q, topics, it);
      assert forall k :: 0 <= k < |q| ==> q[k] == ps[k];
    }
  }

  lemma {:induction false} ArticleMatchesSelect(source: string, arts: seq<Article>, topics: seq<string>)
    ensures ArticleMatches(source, arts, topics) == Selected(Pairs(source, arts), topics)
    decreases |arts|
  {
    if arts != [] {
      var q := arts[..|arts| - 1];
      ArticleMatchesSelect(source, q, topics);
      assert Pairs(source, arts)[..|arts| - 1] == Pairs(source, q);
    }
  }

  lemma {:induction false} SourceMatchesSelect(doc: Document, topics: seq<string>)
    ensures SourceMatches(doc, topics) == Selected(FlattenDoc(doc), topics)
    decreases |doc|
  {
    if doc != [] {
      var e := doc[|doc| - 1];
      SourceMatchesSelect(doc[..|doc| - 1], topics);
      ArticleMatchesSelect(e.0, e.1, topics);
      SelectedAppend(FlattenDoc(doc[..|doc| - 1]), Pairs(e.0, e.1), topics);
    }
  }

  /** Lines 98-111: the matched list is the in-order filter of the documents' articles,
      scanned document by document, source by source, article by article, with nothing
      re-sorted and nothing merged; its length is the number of qualifying articles. */
  lemma {:induction false} MatchesIsInOrderFilter(docs: seq<Document>, topics: seq<string>)
    ensures Matches(docs, topics) == Selected(Flatten(docs), topics)
    decreases |docs|
  {
    if docs != [] {
      MatchesIsInOrderFilter(docs[..|docs| - 1], topics);
      SourceMatchesSelect(docs[|docs| - 1], topics);
      SelectedAppend(Flatten(docs[..|docs| - 1]), FlattenDoc(docs[|docs| - 1]), topics);
    }
  }

  lemma {:induction false} PairsMembership(source: string, arts: seq<Article>, p: (string, Article))
    ensures p in Pairs(source, arts) <==> p.0 == source && p.1 in arts
  {
    if p.0 == source && p.1 in arts {
      var k :| 0 <= k < |arts| && arts[k] == p.1;
      assert Pairs(source, arts)[k] == p;
    }
  }

  /** The pairs of one document are exactly its sources' articles. */
  lemma {:induction false} FlattenDocMembership(doc: Document, p: (string, Article))
    ensures p in FlattenDoc(doc) <==> exists arts :: (p.0, arts) in doc && p.1 in arts
    decreases |doc|
  {
    if doc != [] {
      var q := doc[..|doc| - 1];
      var last := doc[|doc| - 1];
      FlattenDocMembership(q, p);
      PairsMembership(last.0, last.1, p);
      assert doc == q + [last];
    }
  }

  /** The pairs of the documents are exactly the articles of their sources. */
  lemma {:induction false} FlattenMembership(docs: seq<Document>, p: (string, Article))
    ensures p in Flatten(docs) <==> exists doc, arts :: doc in docs && (p.0, arts) in doc && p.1 in arts
    decreases |docs|
  {
    if docs != [] {
      var q := docs[..|docs| - 1];
      var last := docs[|docs| - 1];
      FlattenMembership(q, p);
      FlattenDocMembership(last, p);
      assert docs == q + [last];
      if p in Flatten(docs) {
        if p in Flatten(q) {
          var doc, arts :| doc in q && (p.0, arts) in doc && p.1 in arts;
          assert doc in docs;
        } else {
          var arts :| (p.0, arts) in last && p.1 in arts;
          assert last in docs;
        }
      }
      if exists doc, arts :: doc in docs && (p.0, arts) in doc && p.1 in arts {
        var doc, arts :| doc in docs && (p.0, arts) in doc && p.1 in arts;
        if doc in q {
          assert p in Flatten(q);
        } else {
          assert p in FlattenDoc(last);
        }
      }
    }
  }

  /** Lines 103-110: an item is matched exactly when some scanned document has, under the
      item's source, the article whose title, summary, link and topic the item copies, and
      that topic is followed. */
  lemma {:induction false} MatchedItemsCopyArticles(docs: seq<Document>, topics: seq<string>, it: Item)
    ensures it in Matches(docs, topics)
            <==> (it.topic in topics
                  && exists doc, arts :: doc in docs && (it.source, arts) in doc
                                         && Article(it.title, it.summary, it.link, it.topic) in arts)
  {
    MatchesIsInOrderFilter(docs, topics);
    FlattenMembership(docs, (it.source, Article(it.title, it.summary, it.link, it.topic)));
    var ps := Flatten(docs);
    SelectedMembership(ps, topics, it);
    if it.topic in topics && (it.source, Article(it.title, it.summary, it.link, it.topic)) in ps {
      var k :| 0 <= k < |ps| && ps[k] == (it.source, Article(it.title, it.summary, it.link, it.topic));
      assert ps[k].1.topic in topics && it == ItemOf(ps[k].0, ps[k].1);
    }
  }

  /** Lines 102-111: the innermost loop, over the articles of one source. */
  method CollectFromSource(source: string, arts: seq<Article>, topics: seq<string>) returns (found: seq<Item>)
    ensures found == ArticleMatches(source, arts, topics)
  {
    found := [];
    var k := 0;
    while k < |arts|
      invariant 0 <= k <= |arts|
      invariant found == ArticleMatches(source, arts[..k], topics)
    {
      assert arts[..k + 1][..k] == arts[..k];
      if arts[k].topic in topics {
        found := found + [ItemOf(source, arts[k])];
      }
      k := k + 1;
    }
    assert arts[..k] == arts;
  }

  /** Lines 101-111: the middle loop, over the sources of one document. */
  method CollectFromDocument(doc: Document, topics: seq<string>) returns (found: seq<Item>)
    ensures found == SourceMatches(doc, topics)
  {
    found := [];
    var e := 0;
    while e < |doc|
      invariant 0 <= e <= |doc|
      invariant found == SourceMatches(doc[..e], topics)
    {
      var more := CollectFromSource(doc[e].0, doc[e].1, topics);
      assert doc[..e + 1][..e] == doc[..e];
      found := found + more;
      e := e + 1;
    }
    assert doc[..e] == doc;
  }

  /** Lines 99-111: the outer loop, over the scanned documents, appending to one list. */
  method CollectMatches(latest: seq<Document>, topics: seq<string>) returns (news: seq<Item>)
    ensures news == Matches(latest, topics)
  {
    news := [];
    var d := 0;
    while d < |latest|
      invariant 0 <= d <= |latest|
      invariant news == Matches(latest[..d], topics)
    {
      var more := CollectFromDocument(latest[d], topics);
      assert latest[..d + 1][..d] == latest[..d];
      news := news + more;
      d := d + 1;
    }
    assert latest[..d] == latest;
  }

  // ---------------------------------------------------------------------------------------
  // Preferences (lines 92-95) and the latest documents (line 97)

  /** One record of `user_preferences`: the user and the JSON text of the preference. */
  datatype PreferenceRecord = PreferenceRecord(userId: string, preference: string)

  /** A Python dictionary from user to topics: its keys in insertion order and its values. */
  datatype PyDict = PyDict(keys: seq<string>, values: map<string, seq<string>>)

  /** The keys are distinct and are exactly those with a value. */
  ghost predicate WellFormed(d: PyDict)
  {
    && (forall i, j :: 0 <= i < j < |d.keys| ==> d.keys[i] != d.keys[j])
    && (forall k :: k in d.values <==> k in d.keys)
  }

  /** Line 95, `d[k] = v`: an existing key keeps its place and takes the new value; a new key
      goes at the end. */
  function Put(d: PyDict, k: string, v: seq<string>): (r: PyDict)
    requires WellFormed(d)
    ensures WellFormed(r)
    ensures r.keys == if k in d.values then d.keys else d.keys + [k]
  {
    PyDict(if k in d.values then d.keys else d.keys + [k], d.values[k := v])
  }

  /** Lines 92-95: the dictionary built from the preference records in order. `topicsOf`
      stands for `json.loads(preference)["topics"]`; `None` is an exception, which ends the
      whole run before any email goes out. */
  function UserDict(prefs: seq<PreferenceRecord>, topicsOf: string -> Option<seq<string>>): (r: Option<PyDict>)
    ensures r.Some? ==> WellFormed(r.value)
  {
    if prefs == [] then Some(PyDict([], map[]))
    else
      var last := prefs[|prefs| - 1];
      var before := UserDict(prefs[..|prefs| - 1], topicsOf);
      if before.None? || topicsOf(last.preference).None? then None
      else Some(Put(before.value, last.userId, topicsOf(last.preference).value))
  }

  /** The dictionary cannot be built exactly when some preference fails to parse. */
  lemma {:induction false} UserDictFails(prefs: seq<PreferenceRecord>, topicsOf: string -> Option<seq<string>>)
    ensures UserDict(prefs, topicsOf).None? <==> exists r :: r in prefs && topicsOf(r.preference).None?
    decreases |prefs|
  {
    if prefs != [] {
      var q := prefs[..|prefs| - 1];
      UserDictFails(q, topicsOf);
      assert prefs == q + [prefs[|prefs| - 1]];
    }
  }

  /** Line 95: a later record for the same user overwrites an earlier one; the user's topics
      are those of the user's last record. */
  lemma {:induction false} LastPreferenceWins(prefs: seq<PreferenceRecord>, topicsOf: string -> Option<seq<string>>, i: nat)
    requires UserDict(prefs, topicsOf).Some?
    requires i < |prefs| && forall j :: i < j < |prefs| ==> prefs[j].userId != prefs[i].userId
    ensures var d := UserDict(prefs, topicsOf).value;
            prefs[i].userId in d.values && Some(d.values[prefs[i].userId]) == topicsOf(prefs[i].preference)
    decreases |prefs|
  {
    var q := prefs[..|prefs| - 1];
    if i < |q| {
      LastPreferenceWins(q, topicsOf, i);
    }
  }

  /** One record more: the dictionary of the shorter list with the last record's entry set. */
  lemma {:induction false} UserDictStep(prefs: seq<PreferenceRecord>, topicsOf: string -> Option<seq<string>>)
    requires prefs != [] && UserDict(prefs, topicsOf).Some?
    ensures var last := prefs[|prefs| - 1];
            && UserDict(prefs[..|prefs| - 1], topicsOf).Some? && topicsOf(last.preference).Some?
            && UserDict(prefs, topicsOf).value.values
               == UserDict(prefs[..|prefs| - 1], topicsOf).value.values[last.userId := topicsOf(last.preference).value]
  {
  }

  /** The users that have a preference record. */
  function UsersOf(prefs: seq<PreferenceRecord>): set<string>
  {
    set i | 0 <= i < |prefs| :: prefs[i].userId
  }

  lemma {:induction false} UsersOfStep(prefs: seq<PreferenceRecord>)
    requires prefs != []
    ensures UsersOf(prefs) == UsersOf(prefs[..|prefs| - 1]) + {prefs[|prefs| - 1].userId}
  {
    var q := prefs[..|prefs| - 1];
    forall u ensures u in UsersOf(prefs) <==> u in UsersOf(q) || u == prefs[|prefs| - 1].userId {
      if u in UsersOf(prefs) {
        var i :| 0 <= i < |prefs| && prefs[i].userId == u;
        if i < |q| {
          assert q[i] == prefs[i];
        }
      }
      if u in UsersOf(q) {
        var i :| 0 <= i < |q| && q[i].userId == u;
        assert prefs[i] == q[i];
      }
    }
  }

  /** The dictionary's keys are exactly the users that have a preference record. */
  lemma {:induction false} UserDictKeys(prefs: seq<PreferenceRecord>, topicsOf: string -> Option<seq<string>>)
    requires UserDict(prefs, topicsOf).Some?
    ensures UserDict(prefs, topicsOf).value.values.Keys == UsersOf(prefs)
    decreases |prefs|
  {
    if prefs != [] {
      UserDictStep(prefs, topicsOf);
      UserDictKeys(prefs[..|prefs| - 1], topicsOf);
      UsersOfStep(prefs);
    }
  }

  /** Lines 92-95 as the source runs them. */
  method BuildUserDict(prefs: seq<PreferenceRecord>, topicsOf: string -> Option<seq<string>>) returns (r: Option<PyDict>)
    ensures r == UserDict(prefs, topicsOf)
  {
    var d := PyDict([], map[]);
    var i := 0;
    while i < |prefs|
      invariant 0 <= i <= |prefs|
      invariant UserDict(prefs[..i], topicsOf) == Some(d)
    {
      assert prefs[..i + 1][..i] == prefs[..i];
      var t := topicsOf(prefs[i].preference);
      if t.None? {
        UserDictFails(prefs, topicsOf);
        assert prefs[i] in prefs;
        return None;
      }
      d := Put(d, prefs[i].userId, t.value);
      i := i + 1;
    }
    assert prefs[..i] == prefs;
    return Some(d);
  }

  /** The number of documents line 97 keeps. */
  const Limit: nat := 3

  function Reverse<T>(s: seq<T>): (r: seq<T>)
    ensures |r| == |s| && forall k :: 0 <= k < |s| ==> r[k] == s[|s| - 1 - k]
  {
    if s == [] then [] else [s[|s| - 1]] + Reverse(s[..|s| - 1])
  }

  /** Line 97 on a store listed in ascending `_id` order: the newest documents first, at
      most three of them. */
  function LatestNews(store: seq<Document>): (r: seq<Document>)
    ensures |r| <= Limit
    ensures |r| == if |store| < Limit then |store| else Limit
    ensures forall k :: 0 <= k < |r| ==> r[k] == store[|store| - 1 - k]
  {
    var n := if |store| < Limit then |store| else Limit;
    Reverse(store[|store| - n..])
  }

  // ---------------------------------------------------------------------------------------
  // The template (lines 22-30) and the newsletter (lines 32-57)

  /** The `<a>` slot: its `href` (a template anchor may lack one) and its text. */
  datatype Anchor = Anchor(href: Option<string>, text: string)

  /** The `<img>` slot and its `src`. */
  datatype Image = Image(src: Option<string>)

  /** The parts of the article fragment a fill can write: the first `h1`, `p`, `a` and `img`
      when present, and the strings of all `span`s in document order. */
  datatype Slots = Slots(h1: Option<string>, p: Option<string>, anchor: Option<Anchor>, spans: seq<string>, img: Option<Image>)

  const PicsumPrefix: string := "https://picsum.photos/seed/"
  const PicsumSuffix: string := "/800/400"
  const ReadMore: string := "Read More on "

  /** Lines 37-53 on slots `s` for item `it`. */
  function Filled(s: Slots, it: Item): Slots
  {
    Slots(
      if s.h1.Some? then Some(it.title) else None,
      if s.p.Some? then Some(it.summary) else None,
      if s.anchor.Some? then Some(Anchor(Some(it.link), ReadMore + it.source)) else None,
      if |s.spans| == 0 then []
      else if |s.spans| == 1 then [it.topic]
      else [it.topic, it.source] + s.spans[2..],
      if s.img.Some? then Some(Image(Some(PicsumPrefix + it.title + PicsumSuffix))) else None)
  }

  /** Lines 37-53: a slot is written only when the template has it; the heading takes the
      title, the paragraph the summary, the link points at the article and reads "Read More
      on" and the source, the first span takes the topic and the second the source, later
      spans stay as they were, and the image comes from picsum.photos seeded by the title. */
  lemma {:induction false} FillWritesPresentSlots(s: Slots, it: Item)
    ensures var r := Filled(s, it);
      && (r.h1.Some? <==> s.h1.Some?) && (r.h1.Some? ==> r.h1.value == it.title)
      && (r.p.Some? <==> s.p.Some?) && (r.p.Some? ==> r.p.value == it.summary)
      && (r.anchor.Some? <==> s.anchor.Some?)
      && (r.anchor.Some? ==> r.anchor.value.href == Some(it.link) && r.anchor.value.text == "Read More on " + it.source)
      && |r.spans| == |s.spans|
      && (|r.spans| > 0 ==> r.spans[0] == it.topic)
      && (|r.spans| > 1 ==> r.spans[1] == it.source)
      && (forall k :: 2 <= k < |r.spans| ==> r.spans[k] == s.spans[k])
      && (r.img.Some? <==> s.img.Some?)
      && (r.img.Some? ==> r.img.value.src == Some("https://picsum.photos/seed/" + it.title + "/800/400"))
  {
  }

  /** Every slot a fill writes it overwrites whole: filling a fragment that was already filled
      gives what filling the fresh fragment would. */
  lemma {:induction false} RefillForgetsEarlierItem(s: Slots, a: Item, b: Item)
    ensures Filled(Filled(s, a), b) == Filled(s, b)
  {
    if |s.spans| > 1 {
      assert Filled(s, a).spans[2..] == s.spans[2..];
    }
  }

  /** A mutable copy of the article fragment. */
  class ArticleNode {
    var h1: Option<string>
    var p: Option<string>
    var anchor: Option<Anchor>
    var spans: seq<string>
    var img: Option<Image>

    function Contents(): Slots
      reads this
    {
      Slots(h1, p, anchor, spans, img)
    }

    /** Line 35: a deep copy of a fragment with the given contents. */
    constructor (s: Slots)
      ensures Contents() == s
    {
      h1 := s.h1;
      p := s.p;
      anchor := s.anchor;
      spans := s.spans;
      img := s.img;
    }

    /** Lines 37-53: write the item into the slots the fragment has. */
    method Fill(it: Item)
      modifies this
      ensures Contents() == Filled(old(Contents()), it)
    {
      if h1.Some? {
        h1 := Some(it.title);
      }
      if p.Some? {
        p := Some(it.summary);
      }
      if anchor.Some? {
        anchor := Some(Anchor(Some(it.link), ReadMore + it.source));
      }
      if |spans| > 0 {
        spans := spans[0 := it.topic];
      }
      if |spans| > 1 {
        spans := spans[1 := it.source];
      }
      if img.Some? {
        img := Some(Image(Some(PicsumPrefix + it.title + PicsumSuffix)));
      }
      assert |spans| > 1 ==> spans == [it.topic, it.source] + old(spans)[2..];
    }
  }

  /** The filled fragments of `news`, rendered one after another; `render` stands for
      `str(article)`. */
  function Body(s: Slots, news: seq<Item>, render: Slots -> string): string
  {
    if news == [] then [] else Body(s, news[..|news| - 1], render) + render(Filled(s, news[|news| - 1]))
  }

  /** Lines 33-56: the template's start, one filled fragment per item, the template's end. */
  function Newsletter(start: string, s: Slots, news: seq<Item>, render: Slots -> string, end: string): string
  {
    start + Body(s, news, render) + end
  }

  /** The body of a list is the bodies of its parts, one after the other. */
  lemma {:induction false} BodyAppend(s: Slots, a: seq<Item>, b: seq<Item>, render: Slots -> string)
    ensures Body(s, a + b, render) == Body(s, a, render) + Body(s, b, render)
    decreases |b|
  {
    if b == [] {
      assert a + b == a;
    } else {
      var b' := b[..|b| - 1];
      assert (a + b)[..|a + b| - 1] == a + b';
      BodyAppend(s, a, b', render);
    }
  }

  /** A text built as start, middle and end opens with the start and closes with the end. */
  lemma {:induction false} Framed(start: string, middle: string, end: string)
    ensures var t := start + middle + end;
            |t| >= |start| + |end| && t[..|start|] == start && t[|t| - |end|..] == end
  {
    var t := start + middle + end;
    assert t == start + (middle + end);
  }

  /** The body of a non-empty list opens with its first item's fragment. */
  lemma {:induction false} BodyFirst(s: Slots, news: seq<Item>, render: Slots -> string)
    requires news != []
    ensures Body(s, news, render) == render(Filled(s, news[0])) + Body(s, news[1..], render)
  {
    assert news == [news[0]] + news[1..];
    BodyAppend(s, [news[0]], news[1..], render);
    assert Body(s, [news[0]], render) == Body(s, [], render) + render(Filled(s, news[0]));
  }

  /** Lines 33-56: the newsletter opens with the template's start, closes with its end, holds
      one rendered fragment per item in order between them, and is just start and end for no
      items. */
  lemma {:induction false} NewsletterShape(start: string, s: Slots, news: seq<Item>, render: Slots -> string, end: string)
    ensures var html := Newsletter(start, s, news, render, end);
            && |html| >= |start| + |end| && html[..|start|] == start && html[|html| - |end|..] == end
    ensures news == [] ==> Newsletter(start, s, news, render, end) == start + end
    ensures news != [] ==> Newsletter(start, s, news, render, end)
                           == start + render(Filled(s, news[0])) + Body(s, news[1..], render) + end
  {
    Framed(start, Body(s, news, render), end);
    if news != [] {
      BodyFirst(s, news, render);
    }
  }

  /** Lines 35-54 for one item: fill a fresh deep copy of the fragment and render it. */
  method RenderCopy(template: ArticleNode, it: Item, render: Slots -> string) returns (text: string)
    ensures text == render(Filled(template.Contents(), it))
  {
    var article := new ArticleNode(template.Contents());
    article.Fill(it);
    text := render(article.Contents());
  }

  /** Lines 32-57 as the source runs them: every item is filled into a fresh copy of the
      template fragment, so the template itself is never written and the same list always
      renders the same way. */
  method PrepareNewsLetter(template: ArticleNode, start: string, end: string, news: seq<Item>,
                           render: Slots -> string) returns (html: string)
    ensures html == Newsletter(start, template.Contents(), news, render, end)
    ensures template.Contents() == old(template.Contents())
  {
    ghost var s := template.Contents();
    html := start;
    var i := 0;
    while i < |news|
      invariant 0 <= i <= |news|
      invariant template.Contents() == s
      invariant html == start + Body(s, news[..i], render)
    {
      var text := RenderCopy(template, news[i], render);
      assert news[..i + 1][..i] == news[..i];
      html := html + text;
      i := i + 1;
    }
    assert news[..i] == news;
    html := html + end;
  }

  /** Lines 28-30: the page text around the first occurrence of the fragment's text, each side
      with its newlines deleted. `None` when the fragment text is empty or absent, where the
      split or the index raises while the module loads. */
  function TemplateParts(page: string, fragment: string): (r: Option<(string, string)>)
    ensures r.Some? <==> fragment != [] && Contains(page, fragment)
    ensures r.Some? ==> '\n' !in r.value.0 && '\n' !in r.value.1
  {
    match SplitOnce(page, fragment)
    case None => None
    case Some((before, after)) =>
      DeleteCharRemovesAll(before, '\n');
      DeleteCharRemovesAll(after, '\n');
      Some((Delete(before, "\n"), Delete(after, "\n")))
  }

  /** The start of the template is the page before the fragment's first occurrence and the end
      is the page after it, each without its newlines and never longer than that text. */
  lemma {:induction false} TemplatePartsSplitPage(page: string, fragment: string)
    requires TemplateParts(page, fragment).Some?
    ensures var (start, end) := TemplateParts(page, fragment).value;
            exists before, after ::
              && page == before + fragment + after
              && (forall i: nat :: i < |before| ==> !OccursAt(page, fragment, i))
              && start == Delete(before, "\n") && end == Delete(after, "\n")
              && |start| <= |before| && |end| <= |after|
  {
    var (before, after) := SplitOnce(page, fragment).value;
    DeleteShrinks(before, "\n");
    DeleteShrinks(after, "\n");
  }

  // ---------------------------------------------------------------------------------------
  // The run (lines 91-113)

  /** One triggered email: the recipient and the newsletter (line 62). */
  datatype Email = Email(to: string, html: string)

  /** The newsletter for a user following `topics`. */
  function Letter(latest: seq<Document>, topics: seq<string>, s: Slots, start: string, end: string,
                  render: Slots -> string): string
  {
    Newsletter(start, s, Matches(latest, topics), render, end)
  }

  /** Lines 98-113 for the users `users` of `d`, in order: an email for every user with at
      least one match, nothing for the others. */
  function Emails(users: seq<string>, d: map<string, seq<string>>, latest: seq<Document>, s: Slots,
                  start: string, end: string, render: Slots -> string): (r: seq<Email>)
    requires forall u :: u in users ==> u in d
    ensures |r| <= |users|
  {
    if users == [] then []
    else
      var u := users[|users| - 1];
      Emails(users[..|users| - 1], d, latest, s, start, end, render)
      + (if Matches(latest, d[u]) != [] then [Email(u, Letter(latest, d[u], s, start, end, render))] else [])
  }

  /** Lines 112-113: an email goes out exactly to the users whose matched list is not empty,
      and it carries the newsletter of that list. */
  lemma {:induction false} EmailExactlyWhenMatched(users: seq<string>, d: map<string, seq<string>>, latest: seq<Document>,
                                                   s: Slots, start: string, end: string, render: Slots -> string,
                                                   e: Email)
    requires forall u :: u in users ==> u in d
    ensures e in Emails(users, d, latest, s, start, end, render)
            <==> e.to in users && Matches(latest, d[e.to]) != [] && e.html == Letter(latest, d[e.to], s, start, end, render)
    decreases |users|
  {
    if users != [] {
      var q := users[..|users| - 1];
      assert users == q + [users[|users| - 1]];
      EmailExactlyWhenMatched(q, d, latest, s, start, end, render, e);
    }
  }

  /** No two emails go to the same user. */
  ghost predicate DistinctRecipients(r: seq<Email>)
  {
    forall i, j :: 0 <= i < j < |r| ==> r[i].to != r[j].to
  }

  /** With the dictionary's keys distinct, no user gets two emails. */
  lemma {:induction false} EmailsOnePerUser(users: seq<string>, d: map<string, seq<string>>, latest: seq<Document>,
                                            s: Slots, start: string, end: string, render: Slots -> string)
    requires forall u :: u in users ==> u in d
    requires forall i, j :: 0 <= i < j < |users| ==> users[i] != users[j]
    ensures DistinctRecipients(Emails(users, d, latest, s, start, end, render))
    decreases |users|
  {
    if users != [] {
      var q := users[..|users| - 1];
      var u := users[|users| - 1];
      var prior := Emails(q, d, latest, s, start, end, render);
      EmailsOnePerUser(q, d, latest, s, start, end, render);
      assert u !in q by {
        forall k | 0 <= k < |q| ensures q[k] != u {
          assert q[k] == users[k];
        }
      }
      forall e | e in prior ensures e.to != u {
        EmailExactlyWhenMatched(q, d, latest, s, start, end, render, e);
      }
      var tail := if Matches(latest, d[u]) != [] then [Email(u, Letter(latest, d[u], s, start, end, render))] else [];
      assert Emails(users, d, latest, s, start, end, render) == prior + tail;
      DistinctRecipientsAppend(prior, tail, u);
    }
  }

  /** Emails to distinct users, then at most one more to a user none of them went to. */
  lemma {:induction false} DistinctRecipientsAppend(prior: seq<Email>, tail: seq<Email>, u: string)
    requires DistinctRecipients(prior)
    requires forall e :: e in prior ==> e.to != u
    requires |tail| <= 1 && forall e :: e in tail ==> e.to == u
    ensures DistinctRecipients(prior + tail)
  {
    var r := prior + tail;
    forall i, j | 0 <= i < j < |r| ensures r[i].to != r[j].to {
      assert r[i] == prior[i];
      if j >= |prior| {
        assert prior[i] in prior;
        assert r[j] in tail;
      }
    }
  }

  /** The notifier's view of the world: the template it loaded and the emails it triggered. */
  class Notifier {
    /** Line 22: the article fragment. */
    const template: ArticleNode
    /** Lines 29-30. */
    const start: string
    const end: string
    /** Every email triggered, in order. */
    var outbox: seq<Email>

    constructor (start: string, article: Slots, end: string)
      ensures template.Contents() == article && this.start == start && this.end == end && outbox == []
      ensures fresh(template)
    {
      this.start := start;
      this.end := end;
      template := new ArticleNode(article);
      outbox := [];
    }

    /** Lines 99-113 for one user following `topics`: collect the matches and, when there are
        any, send the newsletter. */
    method Notify(user: string, topics: seq<string>, latest: seq<Document>, render: Slots -> string)
      modifies this
      ensures outbox == old(outbox) + if Matches(latest, topics) != []
                                      then [Email(user, Letter(latest, topics, template.Contents(), start, end, render))]
                                      else []
      ensures template.Contents() == old(template.Contents())
    {
      var news := CollectMatches(latest, topics);
      if news != [] {
        var html := PrepareNewsLetter(template, start, end, news, render);
        outbox := outbox + [Email(user, html)];
      }
    }

    /** Lines 98-113: every user of the dictionary in order. */
    method NotifyAll(users: seq<string>, d: map<string, seq<string>>, latest: seq<Document>, render: Slots -> string)
      requires forall u :: u in users ==> u in d
      modifies this
      ensures outbox == old(outbox) + Emails(users, d, latest, template.Contents(), start, end, render)
      ensures template.Contents() == old(template.Contents())
    {
      ghost var s := template.Contents();
      var i := 0;
      while i < |users|
        invariant 0 <= i <= |users|
        invariant template.Contents() == s
        invariant outbox == old(outbox) + Emails(users[..i], d, latest, s, start, end, render)
      {
        assert users[..i + 1][..i] == users[..i];
        Notify(users[i], d[users[i]], latest, render);
        i := i + 1;
      }
      assert users[..i] == users;
    }

    /** Lines 91-113, one run: build the user dictionary, take the latest documents, and send
        each user with matches their newsletter. A preference that fails to parse ends the run
        before anything is sent. */
    method FindUserAndNews(prefs: seq<PreferenceRecord>, topicsOf: string -> Option<seq<string>>,
                           store: seq<Document>, render: Slots -> string)
      modifies this
      ensures UserDict(prefs, topicsOf).None? ==> outbox == old(outbox)
      ensures UserDict(prefs, topicsOf).Some? ==>
                var d := UserDict(prefs, topicsOf).value;
                outbox == old(outbox) + Emails(d.keys, d.values, LatestNews(store), template.Contents(), start, end, render)
      ensures template.Contents() == old(template.Contents())
    {
      var dict := BuildUserDict(prefs, topicsOf);
      if dict.None? {
        return;
      }
      var d := dict.value;
      assert WellFormed(d);
      NotifyAll(d.keys, d.values, LatestNews(store), render);
    }
  }
}
