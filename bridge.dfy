/**
 * The bridge's module-level state and its handlers: the pending batch
 * (`bufferLeituras`), the pending photos (`bufferFotos`), the debounce timer
 * (`timeoutHandle`), the MQTT message handler, `reiniciarTimeout` and
 * `processarConciliacao`.
 */
module Bridge {
  import opened Options
  import opened Text
  import opened Debounce
  import opened Reconciliation

  const ReadingsTopic: string := "alcateia/teste/riodeserto/emcampo/leituras"
  const PhotosPrefix: string := "alcateia/teste/riodeserto/emcampo/fotos/"

  /**
   * An inbound payload after `JSON.parse(message.toString())`: a parse
   * failure, the document `null`, another falsy document (`false`, `0`,
   * `""`), or a truthy document.
   */
  datatype Payload = Malformed | NullDoc | FalsyDoc | Doc(doc: Document)

  /** What a message does to the buffers. */
  datatype Event =
    | Ignored
    | NewBatch(batch: Option<Document>)
    | NewPhoto(id: string, data: Value)

  /** `payload.fotoBase64`, with `undefined` read as `Null`. */
  function FotoOf(p: Payload): Value
  {
    if p.Doc? && "fotoBase64" in p.doc.fields then p.doc.fields["fotoBase64"] else Null
  }

  /** The id a photo topic carries: its last path segment, which follows the prefix's final '/'. */
  lemma PhotoIdSpec(topic: string)
    requires StartsWith(topic, PhotosPrefix)
    ensures var id := LastSegment(topic);
      && |id| < |topic| - |PhotosPrefix| + 1
      && topic[|topic| - |id|..] == id
      && topic[|topic| - |id| - 1] == '/'
      && (forall i :: 0 <= i < |id| ==> id[i] != '/')
  {
    LastSegmentSpec(topic);
    assert topic[|PhotosPrefix| - 1] == PhotosPrefix[|PhotosPrefix| - 1] == '/';
  }

  /**
   * The classification of the handler (lines 36-49). A parse failure and a
   * topic matching neither subscription are ignored; so is a `null`
   * document on a photo topic, since reading `fotoBase64` of it throws
   * before the map is touched. A falsy batch is stored as no batch, as the
   * pass treats it. A photo's id is the topic's final segment.
   */
  function Classify(topic: string, payload: Payload): (e: Event)
    ensures e.NewBatch? <==> !payload.Malformed? && topic == ReadingsTopic
    ensures e.NewBatch? ==> (e.batch.Some? <==> payload.Doc?) && (payload.Doc? ==> e.batch == Some(payload.doc))
    ensures e.NewPhoto? <==>
      (payload.Doc? || payload.FalsyDoc?) && topic != ReadingsTopic && StartsWith(topic, PhotosPrefix)
    ensures e.NewPhoto? ==>
      && |e.id| < |topic| - |PhotosPrefix| + 1
      && topic[|topic| - |e.id|..] == e.id
      && topic[|topic| - |e.id| - 1] == '/'
      && (forall i :: 0 <= i < |e.id| ==> e.id[i] != '/')
      && e.data == FotoOf(payload)
  {
    if payload.Malformed? then Ignored
    else if topic == ReadingsTopic then NewBatch(if payload.Doc? then Some(payload.doc) else None)
    else if StartsWith(topic, PhotosPrefix) then
      if payload.NullDoc? then Ignored
      else
        PhotoIdSpec(topic);
        NewPhoto(LastSegment(topic), FotoOf(payload))
    else Ignored
  }

  class Bridge {
    /** `bufferLeituras`: the pending reading batch, replaced by each new one. */
    var batch: Option<Document>
    /** `bufferFotos`: reading id to pending photo payload. */
    var photos: map<string, Value>
    /** `timeoutHandle`. */
    var timer: Timer

    constructor ()
      ensures batch == None && photos == map[] && timer == Idle
    {
      batch := None;
      photos := map[];
      timer := Idle;
    }

    /** `reiniciarTimeout`: cancel the pending timer, if any, and arm a new one. */
    method RestartTimer(now: int)
      modifies this`timer
      ensures timer == Armed(now + QuietPeriod)
    {
      if timer.Armed? {
        timer := Idle;  // clearTimeout(timeoutHandle)
      }
      timer := Restart(now);
    }

    /**
     * The bridge's timer driven through messages arriving at times `ts`,
     * with the event loop running an expired timer's callback before the
     * next message: the callback leaves the timer idle, as `Fire` does, and
     * each message re-arms it through `RestartTimer`, as `OnMessage` does;
     * after the last message the pending timer fires. The fire times are
     * exactly `Passes` from the timer at the start.
     */
    method TimerTrace(ts: seq<int>) returns (fires: seq<int>)
      modifies this`timer
      ensures fires == Passes(old(timer), ts)
      ensures timer == Idle
    {
      ghost var t0 := timer;
      fires := [];
      var i := 0;
      while i < |ts|
        invariant 0 <= i <= |ts|
        invariant fires + Passes(timer, ts[i..]) == Passes(t0, ts)
      {
        ghost var before, f0 := timer, fires;
        ghost var due := if Due(timer, ts[i]) then [timer.deadline] else [];
        assert ts[i..][1..] == ts[i + 1..];
        assert Passes(before, ts[i..]) == due + Passes(Restart(ts[i]), ts[i + 1..]);
        if Due(timer, ts[i]) {
          fires := fires + [timer.deadline];
          timer := Idle;  // the callback ran
        }
        RestartTimer(ts[i]);
        assert fires == f0 + due;
        assert timer == Restart(ts[i]);
        assert f0 + Passes(before, ts[i..]) == fires + Passes(timer, ts[i + 1..]);
        i := i + 1;
      }
      if timer.Armed? {
        fires := fires + [timer.deadline];
        timer := Idle;
      }
    }

    /**
     * `client.on('message')`: a batch replaces the pending one, a photo is
     * stored under its id (overwriting an earlier one); either re-arms the
     * timer. Anything else leaves the whole state as it was.
     */
    method OnMessage(topic: string, payload: Payload, now: int)
      modifies this
      ensures var e := Classify(topic, payload);
        match e
        case Ignored =>
          batch == old(batch) && photos == old(photos) && timer == old(timer)
        case NewBatch(b) =>
          batch == b && photos == old(photos) && timer == Armed(now + QuietPeriod)
        case NewPhoto(id, data) =>
          batch == old(batch) && photos == old(photos)[id := data] && timer == Armed(now + QuietPeriod)
    {
      match Classify(topic, payload)
      case Ignored =>
      case NewBatch(b) =>
        batch := b;
        RestartTimer(now);
      case NewPhoto(id, data) =>
        photos := photos[id := data];
        RestartTimer(now);
    }

    /**
     * The `.map` callback over one category's readings: resolve and write
     * each pending photo, consuming it on success, and rewrite `observacao`.
     */
    method MapRows(rows: seq<Reading>, dir: string, write: WriteOracle) returns (out: seq<Reading>)
      requires RowsReady(rows, photos)
      modifies this`photos
      ensures (out, photos) == MapReadings(rows, old(photos), dir, write)
    {
      ghost var p0 := photos;
      out := [];
      var i := 0;
      while i < |rows|
        invariant 0 <= i <= |rows|
        invariant out == MapReadings(rows[..i], p0, dir, write).0
        invariant photos == MapReadings(rows[..i], p0, dir, write).1
      {
        var r := rows[i];
        ghost var before := photos;
        assert ReadingReady(r, p0);
        assert ReadingReady(r, before);
        var url := Null;
        var key := PhotoKey(r);
        if key.Some? && key.value in photos {
          var data := photos[key.value];
          var path := PhotoPath(dir, r[PocoField].s, key.value);
          if write(path, data) {
            photos := photos - {key.value};
            url := Str(path);
          }
        }
        assert (url, photos) == ResolvePhoto(r, before, dir, write);
        assert rows[..i + 1][..i] == rows[..i] && rows[..i + 1][i] == r;
        out := out + [Transform(r, url)];
        i := i + 1;
      }
      assert rows[..i] == rows;
    }

    /** `if (campo[cat]) campo[cat] = campo[cat].map(...)`: one category, reassigned in place. */
    method MapCategoryAt(campo: Campo, i: nat, dir: string, write: WriteOracle) returns (campo': Campo)
      requires i < |campo|
      requires campo[i].slot.Rows? ==> RowsReady(campo[i].slot.rows, photos)
      modifies this`photos
      ensures |campo'| == |campo|
      ensures (campo'[i], photos) == MapCategory(campo[i], old(photos), dir, write)
      ensures campo' == campo[i := campo'[i]]
    {
      campo' := campo;
      if campo[i].slot.Rows? {
        var out := MapRows(campo[i].slot.rows, dir, write);
        campo' := campo[i := Category(campo[i].name, Rows(out))];
      }
    }

    /**
     * `categorias.forEach(...)`: each category of the pending batch's
     * `Campo` is reassigned in place, in key order.
     */
    method MapCategories(dir: string, write: WriteOracle)
      requires batch.Some? && BatchReady(batch.value, photos)
      modifies this`batch, this`photos
      ensures batch.Some? && (batch.value, photos) == Pass(old(batch).value, old(photos), dir, write)
    {
      var doc := batch.value;
      var campo := doc.campo.value;
      ghost var c0, p0 := campo, photos;
      var i := 0;
      while i < |campo|
        invariant 0 <= i <= |campo| == |c0|
        invariant CampoProgress(c0, i, p0, dir, write, campo, photos)
      {
        CampoProgressStep(c0, i, p0, dir, write, campo, photos);
        campo := MapCategoryAt(campo, i, dir, write);
        i := i + 1;
      }
      CampoProgressDone(c0, p0, dir, write, campo, photos);
      batch := Some(doc.(campo := Some(campo)));
    }

    /**
     * `processarConciliacao`: without a pending batch nothing happens.
     * Otherwise every category of `Campo` is mapped in place, the
     * transformed batch is sent, and it is cleared only when the post
     * succeeds; after a failed post it stays pending in transformed form.
     * `sent` is the document handed to the webhook, if any.
     */
    method Reconcile(dir: string, write: WriteOracle, postOk: bool) returns (sent: Option<Document>)
      requires batch.Some? ==> BatchReady(batch.value, photos)
      modifies this`batch, this`photos
      ensures old(batch).None? ==> sent == None && batch == None && photos == old(photos)
      ensures old(batch).Some? ==>
        var (d, left) := Pass(old(batch).value, old(photos), dir, write);
        && sent == Some(d)
        && photos == left
        && batch == (if postOk then None else Some(d))
    {
      if batch.None? {
        return None;
      }
      MapCategories(dir, write);
      sent := batch;
      if postOk {
        batch := None;
      }
    }

    /** The timer callback: it runs once the pending timer has expired. */
    method Fire(now: int, dir: string, write: WriteOracle, postOk: bool) returns (sent: Option<Document>)
      requires Due(timer, now)
      requires batch.Some? ==> BatchReady(batch.value, photos)
      modifies this
      ensures timer == Idle
      ensures old(batch).None? ==> sent == None && batch == None && photos == old(photos)
      ensures old(batch).Some? ==>
        var (d, left) := Pass(old(batch).value, old(photos), dir, write);
        && sent == Some(d)
        && photos == left
        && batch == (if postOk then None else Some(d))
    {
      timer := Idle;
      sent := Reconcile(dir, write, postOk);
    }
  }
}
