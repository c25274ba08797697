/** One pass of the consumer's `listen_to_queue` loop: take a message from the queue, delete
    it, have the language model summarise it, clean the reply, and save the result to MongoDB
    and to the Zilliz vector store, each save swallowing its own errors. */
module Consumer {
  import opened Wrappers
  import opened PyValues

  /** The key `insert_one` gives a document that has none. */
  const IdKey: Key := StrKey("_id")

  /** What happened, in order. */
  datatype Event =
    | Idle                           // line 91: the queue was empty
    | Received(message: string)      // line 77
    | Deleted(message: string)       // line 80
    | Summarised(reply: string)      // line 85
    | SummaryFailed                  // line 85 raised: the loop ends
    | MongoInserted(doc: Value)      // line 88, the insert went through
    | MongoFailed                    // line 88, the error was swallowed
    | ZillizAdded(texts: seq<string>) // line 89, the texts went through
    | ZillizFailed                   // line 89, the error was swallowed

  /** Line 29: what `insert_one` is handed. Only a dictionary is a document; it is given an
      `_id` (`newId`) before anything is sent unless it has one. Anything else is refused
      before anything is sent. */
  function MongoDocument(c: Cleaned, newId: Value): Option<Value>
  {
    if c.Json? && c.value.Dict? then
      Some(if IdKey in c.value.entries then c.value else Dict(c.value.entries[IdKey := newId]))
    else None
  }

  /** The object line 89 turns into text: the dictionary Mongo was handed, `_id` included, or
      the cleaned value as it was. */
  function ZillizSubject(c: Cleaned, newId: Value): Cleaned
  {
    match MongoDocument(c, newId)
    case Some(doc) => Json(doc)
    case None => c
  }

  /** `str(data)` on the cleaner's result: text stays as it is, anything else goes through
      `show`, which stands for `str`. */
  function Shown(c: Cleaned, show: Value -> string): string
  {
    match c
    case Text(t) => t
    case Json(v) => if v.Str? then v.text else show(v)
  }

  /** Line 36: `add_texts` takes an iterable of texts, and a string iterates by character, so
      every character becomes a text of its own. */
  function Texts(s: string): (ts: seq<string>)
    ensures |ts| == |s| && forall i :: 0 <= i < |s| ==> ts[i] == [s[i]]
  {
    seq(|s|, i requires 0 <= i < |s| => [s[i]])
  }

  /** Lines 88-89 as the events they produce: both saves are attempted, each swallowing its
      own error. */
  function SaveEvents(c: Cleaned, show: Value -> string, newId: Value, mongoUp: bool, zillizUp: bool): (ev: seq<Event>)
    ensures |ev| == 2 && (ev[0].MongoInserted? || ev[0] == MongoFailed) && (ev[1].ZillizAdded? || ev[1] == ZillizFailed)
  {
    var doc := MongoDocument(c, newId);
    [if doc.Some? && mongoUp then MongoInserted(doc.value) else MongoFailed]
    + [if zillizUp then ZillizAdded(Texts(Shown(ZillizSubject(c, newId), show))) else ZillizFailed]
  }

  /** Lines 85-89 once the message is gone: the model call, then, if it returned, the two saves. */
  function AfterDelete(reply: Option<string>, clean: string -> Cleaned, show: Value -> string,
                       newId: Value, mongoUp: bool, zillizUp: bool): (ev: seq<Event>)
    ensures reply.None? ==> ev == [SummaryFailed]
    ensures reply.Some? ==> |ev| == 3 && ev[0] == Summarised(reply.value)
    ensures reply.Some? ==> (ev[1].MongoInserted? || ev[1] == MongoFailed) && (ev[2].ZillizAdded? || ev[2] == ZillizFailed)
    ensures forall k :: 0 <= k < |ev| ==> !ev[k].Received? && !ev[k].Deleted? && !ev[k].Idle?
  {
    match reply
    case None => [SummaryFailed]
    case Some(r) => [Summarised(r)] + SaveEvents(clean(r), show, newId, mongoUp, zillizUp)
  }

  /** Lines 77-91, one pass, as the events it produces. `summarise` stands for the language
      model call (`None`: it raised); `clean` is the cleaner of line 86 (the loop runs
      `clean_json`); `mongoUp` and `zillizUp` say whether each store accepts a write; `newId`
      is the `_id` the driver would assign. */
  function StepEvents(queue: seq<string>, summarise: string -> Option<string>, clean: string -> Cleaned,
                      show: Value -> string, newId: Value, mongoUp: bool, zillizUp: bool): (ev: seq<Event>)
    ensures queue == [] <==> ev == [Idle]
  {
    if queue == [] then [Idle]
    else [Received(queue[0]), Deleted(queue[0])] + AfterDelete(summarise(queue[0]), clean, show, newId, mongoUp, zillizUp)
  }

  /** The message is deleted before the model is called and before either store is written:
      every later event is a summary, a failure or a save. */
  lemma {:induction false} DeleteBeforePersist(queue: seq<string>, summarise: string -> Option<string>,
                                               clean: string -> Cleaned, show: Value -> string,
                                               newId: Value, mongoUp: bool, zillizUp: bool)
    requires queue != []
    ensures var ev := StepEvents(queue, summarise, clean, show, newId, mongoUp, zillizUp);
            ev[0] == Received(queue[0]) && ev[1] == Deleted(queue[0])
    ensures var ev := StepEvents(queue, summarise, clean, show, newId, mongoUp, zillizUp);
            forall k :: 0 <= k < |ev| && (ev[k].Summarised? || ev[k].MongoInserted? || ev[k].ZillizAdded?) ==> k >= 2
    ensures var ev := StepEvents(queue, summarise, clean, show, newId, mongoUp, zillizUp);
            forall k :: 0 <= k < |ev| && ev[k].Deleted? ==> k == 1
  {
    var tail := AfterDelete(summarise(queue[0]), clean, show, newId, mongoUp, zillizUp);
    var ev := [Received(queue[0]), Deleted(queue[0])] + tail;
    assert forall k :: 2 <= k < |ev| ==> ev[k] == tail[k - 2];
  }

  /** The two saves are isolated: whether Zilliz gets its texts does not depend on whether
      MongoDB accepted its insert. */
  lemma {:induction false} ZillizIndependentOfMongo(queue: seq<string>, summarise: string -> Option<string>,
                                                    clean: string -> Cleaned, show: Value -> string,
                                                    newId: Value, zillizUp: bool)
    ensures var up := StepEvents(queue, summarise, clean, show, newId, true, zillizUp);
            var down := StepEvents(queue, summarise, clean, show, newId, false, zillizUp);
            |up| == |down| && up[|up| - 1] == down[|down| - 1]
  {
  }

  /** Both stores see the same cleaner output: Mongo inserts only a dictionary, and what
      Zilliz receives is the text of that very dictionary, `_id` included; anything else
      reaches Zilliz as the cleaner gave it. */
  lemma {:induction false} StoresSeeSameOutput(queue: seq<string>, summarise: string -> Option<string>,
                                               clean: string -> Cleaned, show: Value -> string,
                                               newId: Value, mongoUp: bool)
    requires queue != [] && summarise(queue[0]).Some?
    ensures var ev := StepEvents(queue, summarise, clean, show, newId, mongoUp, true);
            var c := clean(summarise(queue[0]).value);
            && |ev| == 5
            && ev[4] == ZillizAdded(Texts(Shown(ZillizSubject(c, newId), show)))
            && (ev[3].MongoInserted? ==> c.Json? && c.value.Dict? && ev[4] == ZillizAdded(Texts(show(ev[3].doc))))
            && (ev[3].MongoInserted? ==> forall k :: k in c.value.entries ==> k in ev[3].doc.entries)
            && (!(c.Json? && c.value.Dict?) ==> ev[3] == MongoFailed && ev[4] == ZillizAdded(Texts(Shown(c, show))))
  {
  }

  /** When the model call raises, the message has already been deleted and nothing is stored:
      the message is lost. */
  lemma {:induction false} LostOnSummaryFailure(queue: seq<string>, summarise: string -> Option<string>,
                                                clean: string -> Cleaned, show: Value -> string,
                                                newId: Value, mongoUp: bool, zillizUp: bool)
    requires queue != [] && summarise(queue[0]).None?
    ensures StepEvents(queue, summarise, clean, show, newId, mongoUp, zillizUp)
            == [Received(queue[0]), Deleted(queue[0]), SummaryFailed]
  {
  }

  /** What MongoDB takes from a pass that reached line 86 with `reply`: the document, when
      there is one and the insert goes through. */
  function MongoGain(reply: Option<string>, clean: string -> Cleaned, newId: Value, mongoUp: bool): (g: seq<Value>)
  {
    if reply.Some? && mongoUp && MongoDocument(clean(reply.value), newId).Some?
    then [MongoDocument(clean(reply.value), newId).value] else []
  }

  /** What Zilliz takes from a pass that reached line 86 with `reply`. */
  function ZillizGain(reply: Option<string>, clean: string -> Cleaned, show: Value -> string, newId: Value, zillizUp: bool): seq<string>
  {
    if reply.Some? && zillizUp then Texts(Shown(ZillizSubject(clean(reply.value), newId), show)) else []
  }

  /** The stores gain exactly what the events of the pass record. */
  lemma {:induction false} GainsMatchEvents(reply: Option<string>, clean: string -> Cleaned, show: Value -> string,
                                            newId: Value, mongoUp: bool, zillizUp: bool)
    ensures var ev := AfterDelete(reply, clean, show, newId, mongoUp, zillizUp);
            (forall d :: MongoInserted(d) in ev <==> MongoGain(reply, clean, newId, mongoUp) == [d])
            && (forall ts :: ZillizAdded(ts) in ev <==> ZillizGain(reply, clean, show, newId, zillizUp) == ts && reply.Some? && zillizUp)
  {
  }

  /** The consumer's view of the queue and the two stores. */
  class Listener {
    /** Messages waiting in the queue, oldest first. */
    var queue: seq<string>
    /** Documents inserted into MongoDB. */
    var mongo: seq<Value>
    /** Texts added to the Zilliz collection. */
    var zilliz: seq<string>
    /** Everything that happened. */
    ghost var trace: seq<Event>

    constructor (pending: seq<string>)
      ensures queue == pending && mongo == [] && zilliz == [] && trace == []
    {
      queue := pending;
      mongo := [];
      zilliz := [];
      trace := [];
    }

    /** Lines 77-80: take the oldest message, if any, and delete it from the queue at once. */
    method Take() returns (message: Option<string>)
      modifies this
      ensures message == if old(queue) == [] then None else Some(old(queue)[0])
      ensures queue == if old(queue) == [] then [] else old(queue)[1..]
      ensures trace == old(trace) + if old(queue) == [] then [Idle] else [Received(old(queue)[0]), Deleted(old(queue)[0])]
      ensures mongo == old(mongo) && zilliz == old(zilliz)
    {
      if queue == [] {
        trace := trace + [Idle];
        return None;
      }
      message := Some(queue[0]);
      trace := trace + [Received(queue[0])];
      trace := trace + [Deleted(queue[0])];
      queue := queue[1..];
    }

    /** Lines 85-89 on a message already deleted. */
    method Process(message: string, summarise: string -> Option<string>, clean: string -> Cleaned,
                   show: Value -> string, newId: Value, mongoUp: bool, zillizUp: bool) returns (alive: bool)
      modifies this
      ensures alive <==> summarise(message).Some?
      ensures trace == old(trace) + AfterDelete(summarise(message), clean, show, newId, mongoUp, zillizUp)
      ensures queue == old(queue)
      ensures mongo == old(mongo) + MongoGain(summarise(message), clean, newId, mongoUp)
      ensures zilliz == old(zilliz) + ZillizGain(summarise(message), clean, show, newId, zillizUp)
    {
      var reply := summarise(message);
      if reply.None? {
        trace := trace + [SummaryFailed];
        return false;
      }
      var cleaned := clean(reply.value);
      var doc := MongoDocument(cleaned, newId);
      var saved := [Summarised(reply.value)];
      if doc.Some? && mongoUp {
        mongo := mongo + [doc.value];
        saved := saved + [MongoInserted(doc.value)];
      } else {
        saved := saved + [MongoFailed];
      }
      var subject := if doc.Some? then Json(doc.value) else cleaned;
      if zillizUp {
        var texts := Texts(Shown(subject, show));
        zilliz := zilliz + texts;
        saved := saved + [ZillizAdded(texts)];
      } else {
        saved := saved + [ZillizFailed];
      }
      trace := trace + saved;
      return true;
    }

    /** Lines 77-91, one pass, with `clean` the cleaner of line 86 (`clean_json`, that is
        `r => NewsCleaner.CleanJson(r, loads)`). Returns false when the model call raised,
        which ends the loop. */
    method Step(summarise: string -> Option<string>, clean: string -> Cleaned, show: Value -> string,
                newId: Value, mongoUp: bool, zillizUp: bool) returns (alive: bool)
      modifies this
      ensures trace == old(trace) + StepEvents(old(queue), summarise, clean, show, newId, mongoUp, zillizUp)
      ensures queue == if old(queue) == [] then [] else old(queue)[1..]
      ensures alive <==> old(queue) == [] || summarise(old(queue)[0]).Some?
      ensures old(queue) == [] ==> mongo == old(mongo) && zilliz == old(zilliz)
      ensures old(queue) != [] ==> mongo == old(mongo) + MongoGain(summarise(old(queue)[0]), clean, newId, mongoUp)
      ensures old(queue) != [] ==> zilliz == old(zilliz) + ZillizGain(summarise(old(queue)[0]), clean, show, newId, zillizUp)
    {
      ghost var before := trace;
      ghost var pending := queue;
      var message := Take();
      if message.None? {
        return true;
      }
      var m := message.value;
      ghost var taken := trace;
      alive := Process(m, summarise, clean, show, newId, mongoUp, zillizUp);
      ghost var rest := AfterDelete(summarise(m), clean, show, newId, mongoUp, zillizUp);
      assert StepEvents(pending, summarise, clean, show, newId, mongoUp, zillizUp)
          == [Received(m), Deleted(m)] + rest;
      assert taken == before + [Received(m), Deleted(m)];
      assert trace == before + ([Received(m), Deleted(m)] + rest);
    }
  }
}
