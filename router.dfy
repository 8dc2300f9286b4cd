/**
 * The routing closure `onRequest` that `startServer` installs, with the
 * notes folder reduced to a store of files and the outcome of the file write
 * chosen by the environment.
 */
module Router {
  import opened Wrappers
  import Utf8
  import Seqs
  import opened Request
  import opened Response

  /** The notes folder: file name to file bytes. */
  type Store = map<string, Utf8.Bytes>

  /** What the atomic file write of `/save` does: it replaces the file and
      the handler answers with the JSON Foundation writes for
      `["ok": true, "path": ...]` (taken as given), or it throws and leaves
      the file as it was. */
  datatype WriteOutcome = Written(report: Utf8.Bytes) | WriteFailed(reason: string)

  /** The file that holds a ticket's note. */
  function NoteFile(ticketId: string): string {
    ticketId + ".json"
  }

  /** The text JSONSerialization writes for `["ok": true]`. */
  const OkTrue: Utf8.Bytes := Utf8.Encode("{\"ok\":true}")

  /** The answer to a CORS preflight. */
  const Preflight: Response := Response("204 No Content", [("Content-Type", "text/plain")], [])

  /** `GET /load`: the note's text, or `{}` when the ticket id or the folder
      is missing, or the file is absent or not UTF-8. */
  function Load(req: Request, notesDir: Option<string>, store: Store): Response {
    if "ticketId" !in req.query || notesDir.None? then OkJSONText("{}")
    else
      var file := NoteFile(req.query["ticketId"]);
      if file in store && Utf8.Decode(store[file]).Some? then OkJSONText(Utf8.Decode(store[file]).value)
      else OkJSONText("{}")
  }

  /** `POST /save`: writes the body text to the ticket's file. */
  function Save(req: Request, notesDir: Option<string>, store: Store, outcome: WriteOutcome): (Response, Store) {
    if "ticketId" !in req.query || notesDir.None? || req.BodyString().None? then (Bad("missing params"), store)
    else
      match outcome
      case Written(report) =>
        (OkJSON(report), store[NoteFile(req.query["ticketId"]) := Utf8.Encode(req.BodyString().value)])
      case WriteFailed(reason) => (Bad("write failed: " + reason), store)
  }

  /** The arm of the `switch` on `(req.method, req.path)` a request takes:
      the four routes match method and path exactly, OPTIONS matches any
      path, and everything else falls to the default. */
  datatype Endpoint = Ping | Choose | LoadNote | SaveNote | AnyOptions | Unmatched

  /** The arm of the routing switch a method and path reach, tried in the switch's order. */
  function EndpointOf(verb: string, path: string): Endpoint {
    if verb == "GET" && path == "/ping" then Ping
    else if verb == "POST" && path == "/choose" then Choose
    else if verb == "GET" && path == "/load" then LoadNote
    else if verb == "POST" && path == "/save" then SaveNote
    else if verb == "OPTIONS" then AnyOptions
    else Unmatched
  }

  /** The arms of the `switch`: the response for a request that reached
      arm `e`, and the store afterwards. */
  function Handle(e: Endpoint, req: Request, notesDir: Option<string>, store: Store, outcome: WriteOutcome): (Response, Store) {
    if e == SaveNote then Save(req, notesDir, store, outcome)
    else (Respond(e, req, notesDir, store), store)
  }

  /** The response of every arm but `/save`, none of which writes. */
  function Respond(e: Endpoint, req: Request, notesDir: Option<string>, store: Store): Response
    requires e != SaveNote
  {
    match e
    case Ping => OkJSON(OkTrue)
    case Choose => OkJSON(OkTrue)
    case LoadNote => Load(req, notesDir, store)
    case AnyOptions => Preflight
    case Unmatched => NotFound()
  }

  /** `onRequest`: the response for a request, and the store afterwards. */
  function Route(req: Request, notesDir: Option<string>, store: Store, outcome: WriteOutcome): (Response, Store) {
    Handle(EndpointOf(req.verb, req.path), req, notesDir, store, outcome)
  }

  /** The file write a request makes, whatever the store holds: a save that
      has its ticket id, the folder and a UTF-8 body, and whose write
      succeeds, puts the body's bytes in the ticket's file. */
  function WriteOf(req: Request, notesDir: Option<string>, outcome: WriteOutcome): Option<(string, Utf8.Bytes)> {
    WriteAt(EndpointOf(req.verb, req.path), req, notesDir, outcome)
  }

  /** The file write of a request that reached arm `e`. */
  function WriteAt(e: Endpoint, req: Request, notesDir: Option<string>, outcome: WriteOutcome): Option<(string, Utf8.Bytes)> {
    if e == SaveNote && "ticketId" in req.query && notesDir.Some?
       && req.BodyString().Some? && outcome.Written?
    then Some((NoteFile(req.query["ticketId"]), req.bodyData.value))
    else None
  }

  /** The store after a write, if any. */
  function Apply(store: Store, write: Option<(string, Utf8.Bytes)>): Store {
    match write
    case None => store
    case Some((file, bytes)) => store[file := bytes]
  }

  /** Writes to different files commute. */
  lemma ApplyCommute(store: Store, w1: Option<(string, Utf8.Bytes)>, w2: Option<(string, Utf8.Bytes)>)
    requires w1.Some? && w2.Some? ==> w1.value.0 != w2.value.0
    ensures Apply(Apply(store, w1), w2) == Apply(Apply(store, w2), w1)
  {
    if w1.Some? && w2.Some? {
      var (f1, b1) := w1.value;
      var (f2, b2) := w2.value;
      assert store[f1 := b1][f2 := b2] == store[f2 := b2][f1 := b1];
    }
  }

  /** A write hides any earlier write to the same file. */
  lemma ApplyOverwrite(store: Store, w1: Option<(string, Utf8.Bytes)>, w2: Option<(string, Utf8.Bytes)>)
    requires w2.Some? && (w1.Some? ==> w1.value.0 == w2.value.0)
    ensures Apply(Apply(store, w1), w2) == Apply(store, w2)
  {
  }

  /** Which requests reach which arm, in both directions. */
  lemma EndpointCases(verb: string, path: string)
    ensures EndpointOf(verb, path) == Ping <==> verb == "GET" && path == "/ping"
    ensures EndpointOf(verb, path) == Choose <==> verb == "POST" && path == "/choose"
    ensures EndpointOf(verb, path) == LoadNote <==> verb == "GET" && path == "/load"
    ensures EndpointOf(verb, path) == SaveNote <==> verb == "POST" && path == "/save"
    ensures EndpointOf(verb, path) == AnyOptions <==> verb == "OPTIONS"
    ensures EndpointOf(verb, path) == Unmatched <==>
              verb != "OPTIONS" && (verb, path) !in {("GET", "/ping"), ("POST", "/choose"), ("GET", "/load"), ("POST", "/save")}
  {
  }

  /** The file names of two tickets differ when the tickets do. */
  lemma NoteFileInjective(a: string, b: string)
    ensures NoteFile(a) == NoteFile(b) <==> a == b
  {
    if NoteFile(a) == NoteFile(b) {
      assert |a| == |b|;
      assert a == NoteFile(a)[..|a|] == NoteFile(b)[..|b|] == b;
    }
  }

  /** `/ping` and `/choose` answer `{"ok":true}` and change nothing. */
  lemma RoutePingChoose(req: Request, notesDir: Option<string>, store: Store, outcome: WriteOutcome)
    requires (req.verb == "GET" && req.path == "/ping") || (req.verb == "POST" && req.path == "/choose")
    ensures Route(req, notesDir, store, outcome) == (OkJSON(OkTrue), store)
    ensures Utf8.Decode(OkTrue) == Some("{\"ok\":true}")
  {
    EndpointCases(req.verb, req.path);
    Utf8.DecodeEncode("{\"ok\":true}");
  }

  /** `/load` never changes the store; it returns the file's bytes exactly
      when the ticket id and the folder are known and the file holds UTF-8,
      and `{}` otherwise. */
  lemma RouteLoad(req: Request, notesDir: Option<string>, store: Store, outcome: WriteOutcome)
    requires req.verb == "GET" && req.path == "/load"
    ensures var (resp, after) := Route(req, notesDir, store, outcome);
      after == store && resp.status == "200 OK" &&
      resp.headers == [("Content-Type", "application/json")] &&
      if "ticketId" in req.query && notesDir.Some? &&
         NoteFile(req.query["ticketId"]) in store && Utf8.Decode(store[NoteFile(req.query["ticketId"])]).Some?
      then resp.body == store[NoteFile(req.query["ticketId"])]
      else resp.body == Utf8.Encode("{}")
  {
    RouteIsLoad(req, notesDir, store, outcome);
    if "ticketId" in req.query && notesDir.Some? {
      var file := NoteFile(req.query["ticketId"]);
      if file in store && Utf8.Decode(store[file]).Some? {
        Utf8.EncodeDecode(store[file]);
      }
    }
  }

  /** A save with no ticket id, no folder or no body is refused with
      `missing params` and writes nothing. */
  lemma RouteSaveMissing(req: Request, notesDir: Option<string>, store: Store, outcome: WriteOutcome)
    requires req.verb == "POST" && req.path == "/save"
    requires "ticketId" !in req.query || notesDir.None? || req.BodyString().None?
    ensures Route(req, notesDir, store, outcome) == (Bad("missing params"), store)
  {
    EndpointCases(req.verb, req.path);
  }

  /** A save that is written stores the request body's bytes under the
      ticket's file, leaves every other file alone and answers with the
      write's report. */
  lemma RouteSaveWritten(req: Request, notesDir: Option<string>, store: Store, report: Utf8.Bytes)
    requires req.verb == "POST" && req.path == "/save"
    requires "ticketId" in req.query && notesDir.Some? && req.BodyString().Some?
    ensures var (resp, after) := Route(req, notesDir, store, Written(report));
      resp == OkJSON(report) &&
      after.Keys == store.Keys + {NoteFile(req.query["ticketId"])} &&
      after[NoteFile(req.query["ticketId"])] == req.bodyData.value &&
      forall f :: f in store && f != NoteFile(req.query["ticketId"]) ==> after[f] == store[f]
  {
    EndpointCases(req.verb, req.path);
    Utf8.EncodeDecode(req.bodyData.value);
  }

  /** A save whose write throws reports the error and writes nothing. */
  lemma RouteSaveFailed(req: Request, notesDir: Option<string>, store: Store, reason: string)
    requires req.verb == "POST" && req.path == "/save"
    requires "ticketId" in req.query && notesDir.Some? && req.BodyString().Some?
    ensures Route(req, notesDir, store, WriteFailed(reason)) == (Bad("write failed: " + reason), store)
  {
    EndpointCases(req.verb, req.path);
  }

  /** OPTIONS on any path is a preflight with an empty body. */
  lemma RouteOptions(req: Request, notesDir: Option<string>, store: Store, outcome: WriteOutcome)
    requires req.verb == "OPTIONS"
    ensures var (resp, after) := Route(req, notesDir, store, outcome);
      after == store && resp.status == "204 No Content" &&
      resp.headers == [("Content-Type", "text/plain")] && resp.body == []
  {
    EndpointCases(req.verb, req.path);
  }

  /** Any other method and path is not found. */
  lemma RouteUnmatched(req: Request, notesDir: Option<string>, store: Store, outcome: WriteOutcome)
    requires req.verb != "OPTIONS"
    requires (req.verb, req.path) !in {("GET", "/ping"), ("POST", "/choose"), ("GET", "/load"), ("POST", "/save")}
    ensures Route(req, notesDir, store, outcome) == (NotFound(), store)
  {
    EndpointCases(req.verb, req.path);
  }

  /** The store after any request is the store before it with the
      request's own write, if any, applied: only a written save changes the
      store, and only at its ticket's file, where it puts the body's bytes. */
  lemma RouteStore(req: Request, notesDir: Option<string>, store: Store, outcome: WriteOutcome)
    ensures Route(req, notesDir, store, outcome).1 == Apply(store, WriteOf(req, notesDir, outcome))
  {
    HandleStore(EndpointOf(req.verb, req.path), req, notesDir, store, outcome);
  }

  /** Every arm applies exactly its own write. */
  lemma HandleStore(e: Endpoint, req: Request, notesDir: Option<string>, store: Store, outcome: WriteOutcome)
    ensures Handle(e, req, notesDir, store, outcome).1 == Apply(store, WriteAt(e, req, notesDir, outcome))
  {
    if e == SaveNote {
      SaveStore(req, notesDir, store, outcome);
    } else {
      KeepStore(e, req, notesDir, store, outcome);
    }
  }

  /** Every arm but `/save` keeps the store and writes nothing. */
  lemma KeepStore(e: Endpoint, req: Request, notesDir: Option<string>, store: Store, outcome: WriteOutcome)
    requires e != SaveNote
    ensures Handle(e, req, notesDir, store, outcome).1 == store
    ensures WriteAt(e, req, notesDir, outcome) == None
  {
  }

  /** `/save` applies exactly the request's write. */
  lemma SaveStore(req: Request, notesDir: Option<string>, store: Store, outcome: WriteOutcome)
    ensures Save(req, notesDir, store, outcome).1 == Apply(store, WriteAt(SaveNote, req, notesDir, outcome))
  {
    if "ticketId" in req.query && notesDir.Some? && req.BodyString().Some? && outcome.Written? {
      Utf8.EncodeDecode(req.bodyData.value);
    }
  }

  /** The four shapes of the router's responses: JSON with 200 or 400, or
      plain text with 204 or 404. */
  predicate Shaped(resp: Response) {
    (resp.headers == [("Content-Type", "application/json")] &&
     (resp.status == "200 OK" || resp.status == "400 Bad Request")) ||
    (resp.headers == [("Content-Type", "text/plain")] &&
     (resp.status == "204 No Content" || resp.status == "404 Not Found"))
  }

  /** Every response the router gives has one of the four shapes. */
  lemma RouteShape(req: Request, notesDir: Option<string>, store: Store, outcome: WriteOutcome)
    ensures Shaped(Route(req, notesDir, store, outcome).0)
  {
    HandleShape(EndpointOf(req.verb, req.path), req, notesDir, store, outcome);
  }

  /** Every arm answers in one of the four shapes. */
  lemma HandleShape(e: Endpoint, req: Request, notesDir: Option<string>, store: Store, outcome: WriteOutcome)
    ensures Shaped(Handle(e, req, notesDir, store, outcome).0)
  {
    if e == SaveNote {
      SaveShape(req, notesDir, store, outcome);
    } else {
      RespondShape(e, req, notesDir, store);
    }
  }

  /** Every arm other than `/save` answers in one of the four shapes. */
  lemma RespondShape(e: Endpoint, req: Request, notesDir: Option<string>, store: Store)
    requires e != SaveNote
    ensures Shaped(Respond(e, req, notesDir, store))
  {
    if e == LoadNote {
      LoadShape(req, notesDir, store);
    }
  }

  /** `/save` answers JSON with 200 or 400. */
  lemma SaveShape(req: Request, notesDir: Option<string>, store: Store, outcome: WriteOutcome)
    ensures Save(req, notesDir, store, outcome).0.headers == [("Content-Type", "application/json")]
    ensures Save(req, notesDir, store, outcome).0.status in {"200 OK", "400 Bad Request"}
  {
  }

  /** `/load` always answers JSON with 200. */
  lemma LoadShape(req: Request, notesDir: Option<string>, store: Store)
    ensures Load(req, notesDir, store).headers == [("Content-Type", "application/json")]
    ensures Load(req, notesDir, store).status == "200 OK"
  {
  }

  /** Every response the router gives has header fields free of CR and LF,
      so its wire bytes end the header block at the first empty line and
      the body follows it unchanged. */
  lemma RouteFraming(req: Request, notesDir: Option<string>, store: Store, outcome: WriteOutcome)
    ensures var resp := Route(req, notesDir, store, outcome).0;
      WellFormed(resp) &&
      Seqs.FindFrom(Wire(resp), [13, 10, 13, 10], 0) == Some(|Utf8.Encode(HeadText(resp))| - 4) &&
      Wire(resp)[|Utf8.Encode(HeadText(resp))|..] == resp.body
  {
    RouteShape(req, notesDir, store, outcome);
    ShapedFraming(Route(req, notesDir, store, outcome).0);
  }

  /** A response of one of the four shapes is well formed and well framed. */
  lemma ShapedFraming(resp: Response)
    requires Shaped(resp)
    ensures WellFormed(resp)
    ensures Seqs.FindFrom(Wire(resp), [13, 10, 13, 10], 0) == Some(|Utf8.Encode(HeadText(resp))| - 4)
    ensures Wire(resp)[|Utf8.Encode(HeadText(resp))|..] == resp.body
  {
    ShapedWellFormed(resp);
    WireFraming(resp);
  }

  /** A response of one of the four shapes is well formed. */
  lemma ShapedWellFormed(resp: Response)
    requires Shaped(resp)
    ensures WellFormed(resp)
  {
    JsonShapesWellFormed(resp.body);
    TextShapesWellFormed(resp.body);
    assert resp == Response(resp.status, resp.headers, resp.body);
  }

  /** Loading after a written save returns the saved bytes. */
  lemma SaveThenLoad(save: Request, load: Request, notesDir: Option<string>, store: Store,
                     report: Utf8.Bytes, outcome: WriteOutcome)
    requires save.verb == "POST" && save.path == "/save" && load.verb == "GET" && load.path == "/load"
    requires "ticketId" in save.query && "ticketId" in load.query
    requires save.query["ticketId"] == load.query["ticketId"]
    requires notesDir.Some? && save.BodyString().Some?
    ensures var after := Route(save, notesDir, store, Written(report)).1;
      var resp := Route(load, notesDir, after, outcome).0;
      resp == OkJSONText(save.BodyString().value) && resp.body == save.bodyData.value &&
      Wire(resp)[|Utf8.Encode(HeadText(resp))|..] == save.bodyData.value
  {
    var after := Route(save, notesDir, store, Written(report)).1;
    var text := save.BodyString().value;
    RouteIsSave(save, notesDir, store, Written(report));
    Utf8.EncodeDecode(save.bodyData.value);
    assert after == store[NoteFile(save.query["ticketId"]) := Utf8.Encode(text)];
    RouteIsLoad(load, notesDir, after, outcome);
    LoadSaved(load, notesDir, after, text);
    LoadShape(load, notesDir, after);
    ShapedFraming(OkJSONText(text));
  }

  /** Requests that name different tickets can be handled in either order
      with the same files afterwards. */
  lemma RoutesCommute(r1: Request, r2: Request, notesDir: Option<string>, store: Store,
                      o1: WriteOutcome, o2: WriteOutcome)
    requires "ticketId" in r1.query && "ticketId" in r2.query ==> r1.query["ticketId"] != r2.query["ticketId"]
    ensures Route(r2, notesDir, Route(r1, notesDir, store, o1).1, o2).1
            == Route(r1, notesDir, Route(r2, notesDir, store, o2).1, o1).1
  {
    var w1, w2 := WriteOf(r1, notesDir, o1), WriteOf(r2, notesDir, o2);
    RouteStore(r1, notesDir, store, o1);
    RouteStore(r2, notesDir, store, o2);
    RouteStore(r2, notesDir, Apply(store, w1), o2);
    RouteStore(r1, notesDir, Apply(store, w2), o1);
    if w1.Some? && w2.Some? {
      NoteFileInjective(r1.query["ticketId"], r2.query["ticketId"]);
    }
    ApplyCommute(store, w1, w2);
  }

  /** Of two saves to the same ticket, a later written save overrides
      whatever the earlier request left. */
  lemma LastSaveWins(r1: Request, r2: Request, notesDir: Option<string>, store: Store,
                     o1: WriteOutcome, report: Utf8.Bytes)
    requires r2.verb == "POST" && r2.path == "/save"
    requires "ticketId" in r2.query && notesDir.Some? && r2.BodyString().Some?
    requires "ticketId" in r1.query && r1.query["ticketId"] == r2.query["ticketId"]
    ensures Route(r2, notesDir, Route(r1, notesDir, store, o1).1, Written(report)).1
            == Route(r2, notesDir, store, Written(report)).1
  {
    var w1, w2 := WriteOf(r1, notesDir, o1), WriteOf(r2, notesDir, Written(report));
    EndpointCases(r2.verb, r2.path);
    assert w2.Some?;
    RouteStore(r1, notesDir, store, o1);
    RouteStore(r2, notesDir, Apply(store, w1), Written(report));
    RouteStore(r2, notesDir, store, Written(report));
    ApplyOverwrite(store, w1, w2);
  }

  /** A request for one ticket, as a client writes it, parses to that
      ticket's id, the path and the body. */
  lemma ClientTicketRequest(verb: string, path: string, tid: string, fields: seq<string>, body: string)
    requires IsWord(verb) && IsWord(path) && '?' !in path && |tid| > 0
    requires forall k :: 0 <= k < |fields| ==> |fields[k]| > 0 && '\r' !in fields[k]
    requires forall j: nat :: !Seqs.MatchAt(body, HeaderEnd, j)
    ensures Parse(Utf8.Encode(RequestText(verb, path + "?" + QueryText([("ticketId", tid)]), fields, body)))
            == Request(verb, path, map["ticketId" := tid], Some(Utf8.Encode(body)))
  {
    var q := [("ticketId", tid)];
    assert MapOf(q) == MapOf([])["ticketId" := tid];
    ParseClientRequest(verb, path, q, fields, body);
  }

  /** The exchange a client makes: a POST to `/save?ticketId=<encoded id>`
      carrying the note, then a GET of `/load` for the same ticket, gets the
      note's bytes back as the body that follows the reply's header block. */
  lemma ClientSaveThenLoad(tid: string, note: string, saveFields: seq<string>, loadFields: seq<string>,
                           dir: string, store: Store, report: Utf8.Bytes, outcome: WriteOutcome)
    requires |tid| > 0
    requires forall k :: 0 <= k < |saveFields| ==> |saveFields[k]| > 0 && '\r' !in saveFields[k]
    requires forall k :: 0 <= k < |loadFields| ==> |loadFields[k]| > 0 && '\r' !in loadFields[k]
    requires forall j: nat :: !Seqs.MatchAt(note, HeaderEnd, j)
    ensures var q := [("ticketId", tid)];
      var save := Parse(Utf8.Encode(RequestText("POST", "/save" + "?" + QueryText(q), saveFields, note)));
      var after := Route(save, Some(dir), store, Written(report)).1;
      var load := Parse(Utf8.Encode(RequestText("GET", "/load" + "?" + QueryText(q), loadFields, "")));
      var resp := Route(load, Some(dir), after, outcome).0;
      after == store[NoteFile(tid) := Utf8.Encode(note)] &&
      Wire(resp)[|Utf8.Encode(HeadText(resp))|..] == Utf8.Encode(note)
  {
    var q := [("ticketId", tid)];
    ClientTicketRequest("POST", "/save", tid, saveFields, note);
    assert forall j: nat :: !Seqs.MatchAt("", HeaderEnd, j);
    ClientTicketRequest("GET", "/load", tid, loadFields, "");
    TicketExchange(Parse(Utf8.Encode(RequestText("POST", "/save" + "?" + QueryText(q), saveFields, note))),
                   Parse(Utf8.Encode(RequestText("GET", "/load" + "?" + QueryText(q), loadFields, ""))),
                   tid, note, dir, store, report, outcome);
  }

  /** The same exchange on the parsed requests. */
  lemma TicketExchange(save: Request, load: Request, tid: string, note: string, dir: string, store: Store,
                       report: Utf8.Bytes, outcome: WriteOutcome)
    requires save.verb == "POST" && save.path == "/save" && save.query == map["ticketId" := tid]
    requires save.bodyData == Some(Utf8.Encode(note))
    requires load.verb == "GET" && load.path == "/load" && load.query == map["ticketId" := tid]
    ensures var after := Route(save, Some(dir), store, Written(report)).1;
      var resp := Route(load, Some(dir), after, outcome).0;
      after == store[NoteFile(tid) := Utf8.Encode(note)] &&
      Wire(resp)[|Utf8.Encode(HeadText(resp))|..] == Utf8.Encode(note)
  {
    var after := Route(save, Some(dir), store, Written(report)).1;
    RouteIsSave(save, Some(dir), store, Written(report));
    Utf8.DecodeEncode(note);
    assert after == store[NoteFile(tid) := Utf8.Encode(note)];
    RouteIsLoad(load, Some(dir), after, outcome);
    LoadSaved(load, Some(dir), after, note);
    var resp := OkJSONText(note);
    LoadShape(load, Some(dir), after);
    ShapedFraming(resp);
  }

  /** `GET /load` reaches the load arm and writes nothing. */
  lemma RouteIsLoad(req: Request, notesDir: Option<string>, store: Store, outcome: WriteOutcome)
    requires req.verb == "GET" && req.path == "/load"
    ensures Route(req, notesDir, store, outcome) == (Load(req, notesDir, store), store)
  {
    assert EndpointOf(req.verb, req.path) == LoadNote;
  }

  /** `POST /save` reaches the save arm. */
  lemma RouteIsSave(req: Request, notesDir: Option<string>, store: Store, outcome: WriteOutcome)
    requires req.verb == "POST" && req.path == "/save"
    ensures Route(req, notesDir, store, outcome) == Save(req, notesDir, store, outcome)
  {
    assert EndpointOf(req.verb, req.path) == SaveNote;
  }

  /** A load of a ticket whose file holds the encoding of `text` answers
      with `text`. */
  lemma LoadSaved(req: Request, notesDir: Option<string>, store: Store, text: string)
    requires "ticketId" in req.query && notesDir.Some?
    requires NoteFile(req.query["ticketId"]) in store
    requires store[NoteFile(req.query["ticketId"])] == Utf8.Encode(text)
    ensures Load(req, notesDir, store) == OkJSONText(text)
  {
    Utf8.DecodeEncode(text);
  }

  /** The running server: the chosen notes folder and the files in it. */
  class NoteServer {
    var notesDir: Option<string>
    var notes: Store

    /** A server over a chosen folder (or none) and its files. */
    constructor (notesDir: Option<string>, notes: Store)
      ensures this.notesDir == notesDir && this.notes == notes
    {
      this.notesDir := notesDir;
      this.notes := notes;
    }

    /** One receive callback: a non-empty chunk is parsed as a request,
        routed, and answered with the bytes `send` builds; an empty chunk
        gets no answer. */
    method Receive(data: Utf8.Bytes, outcome: WriteOutcome) returns (reply: Option<Utf8.Bytes>)
      modifies this
      ensures notesDir == old(notesDir)
      ensures |data| == 0 ==> reply == None && notes == old(notes)
      ensures |data| > 0 ==>
        reply == Some(Wire(Route(Parse(data), old(notesDir), old(notes), outcome).0))
        && notes == Route(Parse(data), old(notesDir), old(notes), outcome).1
    {
      if |data| == 0 {
        return None;
      }
      var req := ParseRequest(data);
      var routed := Route(req, notesDir, notes, outcome);
      var total := Send(routed.0);
      notes := routed.1;
      reply := Some(total);
    }
  }
}
