/**
 * The reconciliation pass of the bridge (`processarConciliacao`), as
 * specification functions over values: for every category of `Campo`, every
 * reading is mapped, in order, to a copy whose `observacao` is replaced by the
 * record `{comentario, url}`; a pending photo for the reading's id is written
 * to a file and, when the write succeeds, consumed from the photo map.
 */
module Reconciliation {
  import opened Options
  import opened Text

  /**
   * A JSON value as far as the pass looks at it: null, a string, any other
   * value (number, boolean, array, object) with its JavaScript truthiness,
   * and the `{comentario, url}` record the pass writes into `observacao`
   * (serialized by `JSON.stringify`, hence a non-empty string to later code).
   */
  datatype Value =
    | Null
    | Str(s: string)
    | Opaque(truthy: bool, tag: int)
    | Info(comentario: Value, url: Value)

  /** A reading: a JSON object, from property name to value. */
  type Reading = map<string, Value>

  /** The value of `campo[cat]`: falsy (skipped by the pass) or an array of readings. */
  datatype Slot = Falsy | Rows(rows: seq<Reading>)

  /** One property of `Campo`, in the order `Object.keys` lists it. */
  datatype Category = Category(name: string, slot: Slot)

  type Campo = seq<Category>

  /**
   * A parsed, truthy inbound document: its `Campo` property as the list of
   * its own keys and their values, and its other properties. `campo` is
   * `None` when `Campo` is undefined or null, for which `Object.keys`
   * throws. A number, a boolean or the empty string has no own keys and is
   * `Some([])`; an array lists its indices as keys.
   */
  datatype Document = Document(campo: Option<Campo>, fields: map<string, Value>)

  /** The outcome of `fs.writeFileSync(path, data)`: true when it did not throw. */
  type WriteOracle = (string, Value) -> bool

  const IdField: string := "id"
  const PocoField: string := "poco"
  const ObsField: string := "observacao"

  /** `leitura[k]`, with `None` for `undefined`. */
  function Field(r: Reading, k: string): Option<Value>
  {
    if k in r then Some(r[k]) else None
  }

  /**
   * The key under which the reading's photo is looked up. Photo ids come
   * from topic segments and are strings, so only a string `id` can match.
   */
  function PhotoKey(r: Reading): Option<string>
  {
    if IdField in r && r[IdField].Str? then Some(r[IdField].s) else None
  }

  /** A photo is pending for the reading: `bufferFotos.has(leitura.id)`. */
  predicate HasPhoto(r: Reading, photos: map<string, Value>)
  {
    PhotoKey(r).Some? && PhotoKey(r).value in photos
  }

  /** `leitura.observacao.trim()` does not throw: the value is not a truthy non-string. */
  predicate CommentReadable(obs: Option<Value>)
  {
    !(obs.Some? && obs.value.Opaque? && obs.value.truthy)
  }

  /** `leitura.observacao && leitura.observacao.trim() !== "" ? leitura.observacao : null`. */
  function NormalizeComment(obs: Option<Value>): Value
    requires CommentReadable(obs)
  {
    match obs
    case None => Null
    case Some(v) =>
      match v
      case Null => Null
      case Str(s) => if s != "" && Trim(s) != "" then v else Null
      case Opaque(_, _) => Null
      case Info(_, _) => v
  }

  /**
   * The normalized comment is null exactly when the comment is missing,
   * null, a falsy value or a blank string, and is otherwise the original
   * value verbatim.
   */
  lemma NormalizeCommentSpec(obs: Option<Value>)
    requires CommentReadable(obs)
    ensures NormalizeComment(obs) == Null <==>
      (obs == None || obs.value.Null? || obs.value.Opaque? || (obs.value.Str? && Blank(obs.value.s)))
    ensures NormalizeComment(obs) != Null ==> obs == Some(NormalizeComment(obs))
  {
    if obs.Some? && obs.value.Str? {
      TrimSpec(obs.value.s);
    }
  }

  /** `leitura.poco.split(' - ')[0].trim()`. */
  function PointCode(poco: string): string
  {
    Trim(Before(poco, " - "))
  }

  /**
   * The point code is the text of `poco` before its first " - " (all of
   * `poco` without one) with its leading and trailing white space cut off:
   * what is cut is white space, what is kept neither starts nor ends with
   * it, and it is empty exactly when that text is blank.
   */
  lemma PointCodeSpec(poco: string)
    ensures FirstSplit(poco, " - ", Before(poco, " - "))
    ensures var b := Before(poco, " - "); TrimmedSlice(b, |b| - |TrimStart(b)|, PointCode(poco))
    ensures PointCode(poco) == [] <==> Blank(Before(poco, " - "))
  {
    var b := Before(poco, " - ");
    BeforeSpec(poco, " - ");
    TrimSpec(b);
    assert PointCode(poco) == Trim(b);
  }

  /** `path.join(dir, name)`, as a plain concatenation. */
  function JoinPath(dir: string, name: string): string
  {
    dir + "/" + name
  }

  /** `` `${codigoPonto} - ${leitura.id}.jpg` `` inside the storage directory. */
  function PhotoPath(dir: string, poco: string, id: string): string
  {
    JoinPath(dir, PointCode(poco) + " - " + id + ".jpg")
  }

  /** Lines 75 and 90 can run on this reading without throwing. */
  predicate ReadingReady(r: Reading, photos: map<string, Value>)
  {
    && CommentReadable(Field(r, ObsField))
    && (HasPhoto(r, photos) ==> PocoField in r && r[PocoField].Str?)
  }

  predicate RowsReady(rs: seq<Reading>, photos: map<string, Value>)
  {
    forall i :: 0 <= i < |rs| ==> ReadingReady(rs[i], photos)
  }

  predicate CampoReady(c: Campo, photos: map<string, Value>)
  {
    forall i :: 0 <= i < |c| ==> (c[i].slot.Rows? ==> RowsReady(c[i].slot.rows, photos))
  }

  /** The pending batch can be reconciled: `Campo` is an object and every reading is ready. */
  predicate BatchReady(d: Document, photos: map<string, Value>)
  {
    d.campo.Some? && CampoReady(d.campo.value, photos)
  }

  /** `q` keeps a subset of the entries of `p`, unchanged. */
  ghost predicate Submap(q: map<string, Value>, p: map<string, Value>)
  {
    q.Keys <= p.Keys && forall k :: k in q ==> q[k] == p[k]
  }

  /** Readiness survives the removal of photo entries. */
  lemma RowsReadyShrinks(rs: seq<Reading>, p: map<string, Value>, q: map<string, Value>)
    requires RowsReady(rs, p) && Submap(q, p)
    ensures RowsReady(rs, q)
  {
  }

  /** The path a reading's photo is written to. */
  function PathFor(r: Reading, dir: string): string
    requires PhotoKey(r).Some? && PocoField in r && r[PocoField].Str?
  {
    PhotoPath(dir, r[PocoField].s, PhotoKey(r).value)
  }

  /**
   * Step 1 of the pass for one reading: the url recorded for it and the
   * photo map afterwards. No pending photo: null url, map unchanged. A
   * pending photo whose write succeeds: its path, and that entry (only
   * that one) removed. A failed write: null url, entry kept.
   */
  function ResolvePhoto(r: Reading, photos: map<string, Value>, dir: string, write: WriteOracle)
    : (Value, map<string, Value>)
    requires ReadingReady(r, photos)
  {
    if HasPhoto(r, photos) then
      var k := PhotoKey(r).value;
      var path := PhotoPath(dir, r[PocoField].s, k);
      if write(path, photos[k]) then (Str(path), photos - {k}) else (Null, photos)
    else (Null, photos)
  }

  /** `{ ...leitura, observacao: JSON.stringify({comentario, url}) }`. */
  function Transform(r: Reading, url: Value): Reading
    requires CommentReadable(Field(r, ObsField))
  {
    r[ObsField := Info(NormalizeComment(Field(r, ObsField)), url)]
  }

  /**
   * The rewritten reading has the same properties as the input plus
   * `observacao`; all but `observacao` keep their values, and the new
   * `observacao` records the url and the input's normalized comment.
   */
  lemma TransformSpec(r: Reading, url: Value)
    requires CommentReadable(Field(r, ObsField))
    ensures var r' := Transform(r, url);
      && SameExceptObs(r, r') && r'.Keys == r.Keys + {ObsField}
      && UrlOf(r') == url && Field(r', ObsField) == Some(Info(NormalizeComment(Field(r, ObsField)), url))
  {
  }

  /** The output reading equals the input one on every property but `observacao`. */
  ghost predicate SameExceptObs(r: Reading, r': Reading)
  {
    forall k :: k != ObsField ==> (k in r' <==> k in r) && (k in r ==> r'[k] == r[k])
  }

  /** The url the pass recorded in an output reading. */
  function UrlOf(r: Reading): Value
  {
    if ObsField in r && r[ObsField].Info? then r[ObsField].url else Null
  }

  /**
   * `campo[cat].map(...)`: the readings mapped left to right, each seeing
   * the photo map the previous ones left behind.
   */
  function MapReadings(rs: seq<Reading>, photos: map<string, Value>, dir: string, write: WriteOracle)
    : (res: (seq<Reading>, map<string, Value>))
    requires RowsReady(rs, photos)
    ensures |res.0| == |rs|
    ensures Submap(res.1, photos)
    decreases |rs|
  {
    if rs == [] then ([], photos)
    else
      var n := |rs| - 1;
      var done := MapReadings(rs[..n], photos, dir, write);
      var (url, left) := ResolvePhoto(rs[n], done.1, dir, write);
      (done.0 + [Transform(rs[n], url)], left)
  }

  /** `if (campo[cat]) campo[cat] = campo[cat].map(...)` for one category. */
  function MapCategory(cat: Category, photos: map<string, Value>, dir: string, write: WriteOracle)
    : (res: (Category, map<string, Value>))
    requires cat.slot.Rows? ==> RowsReady(cat.slot.rows, photos)
    ensures res.0.name == cat.name && res.0.slot.Rows? == cat.slot.Rows?
    ensures Submap(res.1, photos)
  {
    match cat.slot
    case Falsy => (cat, photos)
    case Rows(rs) =>
      var (out, left) := MapReadings(rs, photos, dir, write);
      (Category(cat.name, Rows(out)), left)
  }

  /** `categorias.forEach(...)`: the categories mapped in key order. */
  function MapCampo(c: Campo, photos: map<string, Value>, dir: string, write: WriteOracle)
    : (res: (Campo, map<string, Value>))
    requires CampoReady(c, photos)
    ensures |res.0| == |c|
    ensures Submap(res.1, photos)
    decreases |c|
  {
    if c == [] then ([], photos)
    else
      var n := |c| - 1;
      var done := MapCampo(c[..n], photos, dir, write);
      var (cat, left) := MapCategory(c[n], done.1, dir, write);
      (done.0 + [cat], left)
  }

  /** One more category: the pass over a longer prefix extends the pass over the shorter one. */
  lemma MapCampoSnoc(c: Campo, i: nat, photos: map<string, Value>, dir: string, write: WriteOracle)
    requires CampoReady(c, photos) && i < |c|
    ensures var done := MapCampo(c[..i], photos, dir, write);
      && (c[i].slot.Rows? ==> RowsReady(c[i].slot.rows, done.1))
      && var step := MapCategory(c[i], done.1, dir, write);
         MapCampo(c[..i + 1], photos, dir, write) == (done.0 + [step.0], step.1)
  {
    assert c[..i + 1][..i] == c[..i] && c[..i + 1][i] == c[i];
    var done := MapCampo(c[..i], photos, dir, write);
    if c[i].slot.Rows? {
      RowsReadyShrinks(c[i].slot.rows, photos, done.1);
    }
  }

  /**
   * The state of the in-place `forEach` after `i` categories: those are
   * mapped, the rest untouched, and the photo map is what they left.
   */
  ghost predicate CampoProgress(c0: Campo, i: nat, p0: map<string, Value>, dir: string, write: WriteOracle,
                                campo: Campo, photos: map<string, Value>)
  {
    && i <= |c0| && CampoReady(c0, p0)
    && campo == MapCampo(c0[..i], p0, dir, write).0 + c0[i..]
    && photos == MapCampo(c0[..i], p0, dir, write).1
  }

  /** Mapping category `i` in place, with the photo map it sees, advances the progress by one. */
  lemma CampoProgressStep(c0: Campo, i: nat, p0: map<string, Value>, dir: string, write: WriteOracle,
                          campo: Campo, photos: map<string, Value>)
    requires i < |c0| && CampoProgress(c0, i, p0, dir, write, campo, photos)
    ensures campo[i] == c0[i]
    ensures c0[i].slot.Rows? ==> RowsReady(c0[i].slot.rows, photos)
    ensures var step := MapCategory(c0[i], photos, dir, write);
      CampoProgress(c0, i + 1, p0, dir, write, campo[i := step.0], step.1)
  {
    MapCampoSnoc(c0, i, p0, dir, write);
    var done := MapCampo(c0[..i], p0, dir, write).0;
    var step := MapCategory(c0[i], photos, dir, write);
    assert campo[i := step.0] == done + [step.0] + c0[i + 1..];
  }

  /** Once every category is mapped, the progress is the pass. */
  lemma CampoProgressDone(c0: Campo, p0: map<string, Value>, dir: string, write: WriteOracle,
                          campo: Campo, photos: map<string, Value>)
    requires CampoProgress(c0, |c0|, p0, dir, write, campo, photos)
    ensures (campo, photos) == MapCampo(c0, p0, dir, write)
  {
    assert c0[..|c0|] == c0 && c0[|c0|..] == [];
    var m := MapCampo(c0, p0, dir, write);
    assert campo == m.0 + [] == m.0;
    assert photos == m.1;
  }

  /** The whole pass on a batch: the transformed document and the photo map left. */
  function Pass(d: Document, photos: map<string, Value>, dir: string, write: WriteOracle)
    : (res: (Document, map<string, Value>))
    requires BatchReady(d, photos)
    ensures res.0.fields == d.fields && res.0.campo.Some?
    ensures |res.0.campo.value| == |d.campo.value|
    ensures Submap(res.1, photos)
  {
    var (c, left) := MapCampo(d.campo.value, photos, dir, write);
    (d.(campo := Some(c)), left)
  }

  /**
   * The readings after the pass, each against its input: every property but
   * `observacao` kept, and `observacao` the record of the normalized comment
   * and the url recorded for it.
   */
  ghost predicate RowsShaped(rs: seq<Reading>, out: seq<Reading>)
  {
    && |out| == |rs|
    && forall j :: 0 <= j < |rs| ==>
         && SameExceptObs(rs[j], out[j])
         && CommentReadable(Field(rs[j], ObsField))
         && ObsField in out[j]
         && out[j][ObsField] == Info(NormalizeComment(Field(rs[j], ObsField)), UrlOf(out[j]))
  }

  /**
   * Every url recorded is the deterministic path of a reading whose photo
   * was pending in `p`, whose write succeeded, and whose entry is gone from `q`.
   */
  ghost predicate UrlsJustified(rs: seq<Reading>, out: seq<Reading>, p: map<string, Value>,
                                q: map<string, Value>, dir: string, write: WriteOracle)
  {
    forall j :: 0 <= j < |rs| && j < |out| && UrlOf(out[j]) != Null ==>
      && HasPhoto(rs[j], p)
      && PocoField in rs[j] && rs[j][PocoField].Str?
      && UrlOf(out[j]) == Str(PathFor(rs[j], dir))
      && write(PathFor(rs[j], dir), p[PhotoKey(rs[j]).value])
      && PhotoKey(rs[j]).value !in q
  }

  /** Every entry that left the photo map was consumed by a reading with that id that got a url. */
  ghost predicate Consumed(rs: seq<Reading>, out: seq<Reading>, p: map<string, Value>, q: map<string, Value>)
  {
    forall k :: k in p && k !in q ==> ConsumedBy(rs, out, k)
  }

  /** Some reading with photo key `k` got a url. */
  ghost predicate ConsumedBy(rs: seq<Reading>, out: seq<Reading>, k: string)
  {
    exists j :: 0 <= j < |rs| && j < |out| && PhotoKey(rs[j]) == Some(k) && UrlOf(out[j]) != Null
  }

  /** Structure of one category's pass: same length, same order, only `observacao` rewritten. */
  lemma {:induction false} ReadingsShape(rs: seq<Reading>, p: map<string, Value>, dir: string, write: WriteOracle)
    requires RowsReady(rs, p)
    ensures RowsShaped(rs, MapReadings(rs, p, dir, write).0)
    decreases |rs|
  {
    if rs != [] {
      var n := |rs| - 1;
      ReadingsShape(rs[..n], p, dir, write);
      var done := MapReadings(rs[..n], p, dir, write);
      var res := ResolvePhoto(rs[n], done.1, dir, write);
      var out := MapReadings(rs, p, dir, write).0;
      assert out == done.0 + [Transform(rs[n], res.0)];
      forall j | 0 <= j < n
        ensures SameExceptObs(rs[j], out[j]) && ObsField in out[j]
        ensures out[j][ObsField] == Info(NormalizeComment(Field(rs[j], ObsField)), UrlOf(out[j]))
      {
        assert out[j] == done.0[j] && rs[j] == rs[..n][j];
      }
    }
  }

  /** One more reading keeps the urls justified. */
  lemma UrlsStep(rs: seq<Reading>, o1: seq<Reading>, p: map<string, Value>, p1: map<string, Value>,
                 r: Reading, dir: string, write: WriteOracle)
    requires |o1| == |rs| && Submap(p1, p) && ReadingReady(r, p1)
    requires UrlsJustified(rs, o1, p, p1, dir, write)
    ensures var (url, q) := ResolvePhoto(r, p1, dir, write);
      UrlsJustified(rs + [r], o1 + [Transform(r, url)], p, q, dir, write)
  {
    var (url, q) := ResolvePhoto(r, p1, dir, write);
    var rs', out := rs + [r], o1 + [Transform(r, url)];
    assert UrlOf(out[|rs|]) == url;
    forall j | 0 <= j < |rs'| && j < |out| && UrlOf(out[j]) != Null
      ensures HasPhoto(rs'[j], p) && PocoField in rs'[j] && rs'[j][PocoField].Str?
      ensures UrlOf(out[j]) == Str(PathFor(rs'[j], dir))
      ensures write(PathFor(rs'[j], dir), p[PhotoKey(rs'[j]).value])
      ensures PhotoKey(rs'[j]).value !in q
    {
      if j < |rs| {
        assert rs'[j] == rs[j] && out[j] == o1[j];
      }
    }
  }

  /** One more reading keeps every removal accounted for. */
  lemma ConsumedStep(rs: seq<Reading>, o1: seq<Reading>, p: map<string, Value>, p1: map<string, Value>,
                     r: Reading, dir: string, write: WriteOracle)
    requires |o1| == |rs| && Submap(p1, p) && ReadingReady(r, p1)
    requires Consumed(rs, o1, p, p1)
    ensures var (url, q) := ResolvePhoto(r, p1, dir, write);
      Consumed(rs + [r], o1 + [Transform(r, url)], p, q)
  {
    var (url, q) := ResolvePhoto(r, p1, dir, write);
    var rs', out := rs + [r], o1 + [Transform(r, url)];
    assert UrlOf(out[|rs|]) == url;
    forall k | k in p && k !in q
      ensures ConsumedBy(rs', out, k)
    {
      if k !in p1 {
        var j :| 0 <= j < |rs| && j < |o1| && PhotoKey(rs[j]) == Some(k) && UrlOf(o1[j]) != Null;
        assert rs'[j] == rs[j] && out[j] == o1[j];
      } else {
        assert PhotoKey(rs'[|rs|]) == Some(k);
      }
    }
  }

  /** Photo resolution over one category: urls are justified and every removal is a consumption. */
  lemma {:induction false} ReadingsPhotos(rs: seq<Reading>, p: map<string, Value>, dir: string, write: WriteOracle)
    requires RowsReady(rs, p)
    ensures var (out, q) := MapReadings(rs, p, dir, write);
      UrlsJustified(rs, out, p, q, dir, write) && Consumed(rs, out, p, q)
    decreases |rs|
  {
    if rs != [] {
      var n := |rs| - 1;
      ReadingsPhotos(rs[..n], p, dir, write);
      var (o1, p1) := MapReadings(rs[..n], p, dir, write);
      UrlsStep(rs[..n], o1, p, p1, rs[n], dir, write);
      ConsumedStep(rs[..n], o1, p, p1, rs[n], dir, write);
      assert rs[..n] + [rs[n]] == rs;
    }
  }

  /** A photo whose id no reading carries is never removed. */
  lemma OrphansKept(rs: seq<Reading>, p: map<string, Value>, dir: string, write: WriteOracle, k: string)
    requires RowsReady(rs, p)
    requires k in p
    requires forall j :: 0 <= j < |rs| ==> PhotoKey(rs[j]) != Some(k)
    ensures var q := MapReadings(rs, p, dir, write).1; k in q && q[k] == p[k]
  {
    ReadingsPhotos(rs, p, dir, write);
  }

  /** No two readings of the sequence carry the same photo key. */
  ghost predicate DistinctKeys(rs: seq<Reading>)
  {
    forall i, j :: 0 <= i < j < |rs| && PhotoKey(rs[i]).Some? ==> PhotoKey(rs[i]) != PhotoKey(rs[j])
  }

  /** Each recorded url is what resolving that reading alone against `p` yields. */
  ghost predicate MatchesAlone(rs: seq<Reading>, out: seq<Reading>, p: map<string, Value>,
                               dir: string, write: WriteOracle)
  {
    forall j :: 0 <= j < |rs| && j < |out| ==>
      ReadingReady(rs[j], p) && UrlOf(out[j]) == ResolvePhoto(rs[j], p, dir, write).0
  }

  /** Resolving `r` alone against `p` consumes the photo `k`. */
  ghost predicate TakesPhoto(r: Reading, k: string, p: map<string, Value>, dir: string, write: WriteOracle)
  {
    PhotoKey(r) == Some(k) && ReadingReady(r, p) && ResolvePhoto(r, p, dir, write).0 != Null
  }

  /** An entry of `p` is missing from `q` exactly when some reading's resolution against `p` consumed it. */
  ghost predicate RemovedExactly(rs: seq<Reading>, p: map<string, Value>, q: map<string, Value>,
                                 dir: string, write: WriteOracle)
  {
    forall k :: k in p ==>
      (k !in q <==> exists j :: 0 <= j < |rs| && TakesPhoto(rs[j], k, p, dir, write))
  }

  /** A reading whose key no earlier reading has sees its photo as it was at the start. */
  lemma FreshKeyResolves(rs: seq<Reading>, p: map<string, Value>, p1: map<string, Value>,
                         r: Reading, dir: string, write: WriteOracle)
    requires Submap(p1, p) && ReadingReady(r, p)
    requires PhotoKey(r).Some? ==> forall j :: 0 <= j < |rs| ==> PhotoKey(rs[j]) != PhotoKey(r)
    requires RemovedExactly(rs, p, p1, dir, write)
    ensures ReadingReady(r, p1)
    ensures ResolvePhoto(r, p1, dir, write).0 == ResolvePhoto(r, p, dir, write).0
    ensures HasPhoto(r, p) ==> PhotoKey(r).value in p1 && p1[PhotoKey(r).value] == p[PhotoKey(r).value]
  {
    if HasPhoto(r, p) {
      var k := PhotoKey(r).value;
      assert k in p1;
    }
  }

  /** Appending a reading whose url was resolved as if alone keeps `MatchesAlone`. */
  lemma MatchesStep(rs: seq<Reading>, o1: seq<Reading>, p: map<string, Value>,
                    r: Reading, url: Value, dir: string, write: WriteOracle)
    requires |o1| == |rs| && ReadingReady(r, p)
    requires MatchesAlone(rs, o1, p, dir, write)
    requires url == ResolvePhoto(r, p, dir, write).0
    ensures MatchesAlone(rs + [r], o1 + [Transform(r, url)], p, dir, write)
  {
    var rs', out := rs + [r], o1 + [Transform(r, url)];
    assert UrlOf(out[|rs|]) == url;
    forall j | 0 <= j < |rs'| && j < |out|
      ensures ReadingReady(rs'[j], p) && UrlOf(out[j]) == ResolvePhoto(rs'[j], p, dir, write).0
    {
      if j < |rs| {
        assert rs'[j] == rs[j] && out[j] == o1[j];
      }
    }
  }

  /** Appending a reading with a fresh key keeps `RemovedExactly`. */
  lemma RemovedStep(rs: seq<Reading>, p: map<string, Value>, p1: map<string, Value>,
                    r: Reading, dir: string, write: WriteOracle)
    requires Submap(p1, p) && ReadingReady(r, p) && ReadingReady(r, p1)
    requires PhotoKey(r).Some? ==> forall j :: 0 <= j < |rs| ==> PhotoKey(rs[j]) != PhotoKey(r)
    requires HasPhoto(r, p) ==> PhotoKey(r).value in p1 && p1[PhotoKey(r).value] == p[PhotoKey(r).value]
    requires RemovedExactly(rs, p, p1, dir, write)
    ensures RemovedExactly(rs + [r], p, ResolvePhoto(r, p1, dir, write).1, dir, write)
  {
    var q := ResolvePhoto(r, p1, dir, write).1;
    var rs' := rs + [r];
    forall k | k in p
      ensures k !in q <==> exists j :: 0 <= j < |rs'| && TakesPhoto(rs'[j], k, p, dir, write)
    {
      if exists j :: 0 <= j < |rs| && TakesPhoto(rs[j], k, p, dir, write) {
        var j :| 0 <= j < |rs| && TakesPhoto(rs[j], k, p, dir, write);
        assert rs'[j] == rs[j];
      } else if PhotoKey(r) == Some(k) {
        assert rs'[|rs|] == r;
      } else {
        forall j | 0 <= j < |rs'|
          ensures !TakesPhoto(rs'[j], k, p, dir, write)
        {
          if j < |rs| {
            assert rs'[j] == rs[j];
          }
        }
      }
    }
  }

  /**
   * When ids are distinct, each reading's url is exactly the outcome of
   * resolving it alone against the photo map at the start of the pass, and
   * an entry leaves the map exactly when its reading's write succeeded.
   * A failed write of one reading changes nothing for the others.
   */
  lemma {:induction false} DistinctResolution(rs: seq<Reading>, p: map<string, Value>, dir: string, write: WriteOracle)
    requires RowsReady(rs, p)
    requires DistinctKeys(rs)
    ensures var (out, q) := MapReadings(rs, p, dir, write);
      MatchesAlone(rs, out, p, dir, write) && RemovedExactly(rs, p, q, dir, write)
    decreases |rs|
  {
    if rs != [] {
      var n := |rs| - 1;
      assert DistinctKeys(rs[..n]);
      DistinctResolution(rs[..n], p, dir, write);
      var (o1, p1) := MapReadings(rs[..n], p, dir, write);
      FreshKeyResolves(rs[..n], p, p1, rs[n], dir, write);
      var url := ResolvePhoto(rs[n], p1, dir, write).0;
      MatchesStep(rs[..n], o1, p, rs[n], url, dir, write);
      RemovedStep(rs[..n], p, p1, rs[n], dir, write);
      assert rs[..n] + [rs[n]] == rs;
    }
  }

  /** One category after the pass: same name; a falsy one untouched; an array one shaped. */
  ghost predicate CategoryShaped(cat: Category, out: Category)
  {
    && out.name == cat.name
    && (cat.slot.Falsy? ==> out == cat)
    && (cat.slot.Rows? ==> out.slot.Rows? && RowsShaped(cat.slot.rows, out.slot.rows))
  }

  ghost predicate CampoShaped(c: Campo, out: Campo)
  {
    |out| == |c| && forall i :: 0 <= i < |c| ==> CategoryShaped(c[i], out[i])
  }

  /** Some reading of some category carries photo key `k`. */
  ghost predicate UsesKey(c: Campo, k: string)
  {
    exists i, j :: 0 <= i < |c| && c[i].slot.Rows? && 0 <= j < |c[i].slot.rows| &&
                   PhotoKey(c[i].slot.rows[j]) == Some(k)
  }

  ghost predicate CampoJustified(c: Campo, out: Campo, p: map<string, Value>, q: map<string, Value>,
                                 dir: string, write: WriteOracle)
  {
    forall i :: 0 <= i < |c| && i < |out| && c[i].slot.Rows? && out[i].slot.Rows? ==>
      UrlsJustified(c[i].slot.rows, out[i].slot.rows, p, q, dir, write)
  }

  ghost predicate CampoConsumed(c: Campo, out: Campo, p: map<string, Value>, q: map<string, Value>)
  {
    forall k :: k in p && k !in q ==>
      exists i :: 0 <= i < |c| && i < |out| && c[i].slot.Rows? && out[i].slot.Rows? &&
                  ConsumedBy(c[i].slot.rows, out[i].slot.rows, k)
  }

  /** Structure of the whole pass: same category keys in the same order, each category shaped. */
  lemma {:induction false} CampoShape(c: Campo, p: map<string, Value>, dir: string, write: WriteOracle)
    requires CampoReady(c, p)
    ensures CampoShaped(c, MapCampo(c, p, dir, write).0)
    decreases |c|
  {
    if c != [] {
      var n := |c| - 1;
      assert CampoReady(c[..n], p);
      CampoShape(c[..n], p, dir, write);
      var done := MapCampo(c[..n], p, dir, write);
      var out := MapCampo(c, p, dir, write).0;
      forall i | 0 <= i < n ensures CategoryShaped(c[i], out[i]) {
        assert out[i] == done.0[i] && c[i] == c[..n][i];
      }
      if c[n].slot.Rows? {
        ReadingsShape(c[n].slot.rows, done.1, dir, write);
      }
      assert out[n] == MapCategory(c[n], done.1, dir, write).0;
    }
  }

  /** Urls stay justified against a larger starting map and a smaller final one. */
  lemma JustifiedWeaken(rs: seq<Reading>, out: seq<Reading>, p: map<string, Value>, p1: map<string, Value>,
                        q1: map<string, Value>, q: map<string, Value>, dir: string, write: WriteOracle)
    requires Submap(p1, p) && Submap(q, q1)
    requires UrlsJustified(rs, out, p1, q1, dir, write)
    ensures UrlsJustified(rs, out, p, q, dir, write)
  {
  }

  /** The photo facts of one category's pass, weakened to the outer maps. */
  lemma CategoryPhotos(cat: Category, p: map<string, Value>, p1: map<string, Value>,
                       dir: string, write: WriteOracle)
    requires Submap(p1, p)
    requires cat.slot.Rows? ==> RowsReady(cat.slot.rows, p1)
    ensures var (o2, q) := MapCategory(cat, p1, dir, write);
      && (cat.slot.Rows? ==> UrlsJustified(cat.slot.rows, o2.slot.rows, p, q, dir, write))
      && (cat.slot.Rows? ==> Consumed(cat.slot.rows, o2.slot.rows, p1, q))
      && (cat.slot.Falsy? ==> q == p1)
  {
    if cat.slot.Rows? {
      ReadingsPhotos(cat.slot.rows, p1, dir, write);
      var (o2, q) := MapCategory(cat, p1, dir, write);
      JustifiedWeaken(cat.slot.rows, o2.slot.rows, p, p1, q, q, dir, write);
    }
  }

  /** One more category keeps every url justified. */
  lemma CampoJustifiedStep(c: Campo, o1: Campo, p: map<string, Value>, p1: map<string, Value>,
                           cat: Category, dir: string, write: WriteOracle)
    requires |o1| == |c| && Submap(p1, p)
    requires cat.slot.Rows? ==> RowsReady(cat.slot.rows, p1)
    requires CampoJustified(c, o1, p, p1, dir, write)
    ensures var (o2, q) := MapCategory(cat, p1, dir, write);
      CampoJustified(c + [cat], o1 + [o2], p, q, dir, write)
  {
    var (o2, q) := MapCategory(cat, p1, dir, write);
    CategoryPhotos(cat, p, p1, dir, write);
    var c', out := c + [cat], o1 + [o2];
    forall i | 0 <= i < |c'| && i < |out| && c'[i].slot.Rows? && out[i].slot.Rows?
      ensures UrlsJustified(c'[i].slot.rows, out[i].slot.rows, p, q, dir, write)
    {
      if i < |c| {
        assert c'[i] == c[i] && out[i] == o1[i];
        JustifiedWeaken(c[i].slot.rows, o1[i].slot.rows, p, p, p1, q, dir, write);
      } else {
        assert c'[i] == cat && out[i] == o2;
      }
    }
  }

  /** One more category keeps every removal accounted for. */
  lemma CampoConsumedStep(c: Campo, o1: Campo, p: map<string, Value>, p1: map<string, Value>,
                          cat: Category, dir: string, write: WriteOracle)
    requires |o1| == |c| && Submap(p1, p)
    requires cat.slot.Rows? ==> RowsReady(cat.slot.rows, p1)
    requires CampoConsumed(c, o1, p, p1)
    ensures var (o2, q) := MapCategory(cat, p1, dir, write);
      CampoConsumed(c + [cat], o1 + [o2], p, q)
  {
    var (o2, q) := MapCategory(cat, p1, dir, write);
    CategoryPhotos(cat, p, p1, dir, write);
    var c', out := c + [cat], o1 + [o2];
    forall k | k in p && k !in q
      ensures exists i :: 0 <= i < |c'| && i < |out| && c'[i].slot.Rows? && out[i].slot.Rows? &&
                          ConsumedBy(c'[i].slot.rows, out[i].slot.rows, k)
    {
      if k !in p1 {
        var i :| 0 <= i < |c| && i < |o1| && c[i].slot.Rows? && o1[i].slot.Rows? &&
                 ConsumedBy(c[i].slot.rows, o1[i].slot.rows, k);
        assert c'[i] == c[i] && out[i] == o1[i];
      } else {
        assert c'[|c|] == cat && out[|c|] == o2;
      }
    }
  }

  /**
   * Photo resolution over the whole pass: every url recorded is justified
   * against the map at the start, and every entry removed was consumed by
   * some reading with that id.
   */
  lemma {:induction false} CampoPhotos(c: Campo, p: map<string, Value>, dir: string, write: WriteOracle)
    requires CampoReady(c, p)
    ensures var (out, q) := MapCampo(c, p, dir, write);
      CampoJustified(c, out, p, q, dir, write) && CampoConsumed(c, out, p, q)
    decreases |c|
  {
    if c != [] {
      var n := |c| - 1;
      assert CampoReady(c[..n], p);
      CampoPhotos(c[..n], p, dir, write);
      MapCampoSnoc(c, n, p, dir, write);
      assert c[..n + 1] == c && c[..n] + [c[n]] == c;
      var (o1, p1) := MapCampo(c[..n], p, dir, write);
      CampoJustifiedStep(c[..n], o1, p, p1, c[n], dir, write);
      CampoConsumedStep(c[..n], o1, p, p1, c[n], dir, write);
    }
  }

  /** A photo whose id no reading of the batch carries survives the pass, unchanged. */
  lemma CampoOrphansKept(c: Campo, p: map<string, Value>, dir: string, write: WriteOracle, k: string)
    requires CampoReady(c, p)
    requires k in p && !UsesKey(c, k)
    ensures var q := MapCampo(c, p, dir, write).1; k in q && q[k] == p[k]
  {
    CampoPhotos(c, p, dir, write);
  }
  /** The readings of every array category of the batch, in category-key order. */
  function AllRows(c: Campo): seq<Reading>
    decreases |c|
  {
    if c == [] then []
    else AllRows(c[..|c| - 1]) + (if c[|c| - 1].slot.Rows? then c[|c| - 1].slot.rows else [])
  }

  /** Every reading of a ready batch is ready. */
  lemma {:induction false} AllRowsReady(c: Campo, p: map<string, Value>)
    requires CampoReady(c, p)
    ensures RowsReady(AllRows(c), p)
    decreases |c|
  {
    if c != [] {
      var n := |c| - 1;
      assert CampoReady(c[..n], p);
      AllRowsReady(c[..n], p);
      var xs, ys := AllRows(c[..n]), if c[n].slot.Rows? then c[n].slot.rows else [];
      forall i | 0 <= i < |xs + ys| ensures ReadingReady((xs + ys)[i], p) {
        if i >= |xs| {
          assert (xs + ys)[i] == ys[i - |xs|];
        }
      }
    }
  }

  /** Mapping `xs + ys` maps `xs`, then maps `ys` against the photo map `xs` left. */
  lemma {:induction false} MapReadingsAppend(xs: seq<Reading>, ys: seq<Reading>, p: map<string, Value>,
                                             dir: string, write: WriteOracle)
    requires RowsReady(xs + ys, p)
    ensures RowsReady(xs, p)
    ensures RowsReady(ys, MapReadings(xs, p, dir, write).1)
    ensures var (o1, p1) := MapReadings(xs, p, dir, write);
      MapReadings(xs + ys, p, dir, write) == (o1 + MapReadings(ys, p1, dir, write).0, MapReadings(ys, p1, dir, write).1)
    decreases |ys|
  {
    assert forall i :: 0 <= i < |xs| ==> xs[i] == (xs + ys)[i];
    assert forall i :: 0 <= i < |ys| ==> ys[i] == (xs + ys)[|xs| + i];
    var p1 := MapReadings(xs, p, dir, write).1;
    RowsReadyShrinks(ys, p, p1);
    if ys == [] {
      assert xs + ys == xs;
      var o1 := MapReadings(xs, p, dir, write).0;
      assert MapReadings(ys, p1, dir, write) == ([], p1);
      assert o1 + [] == o1;
    } else {
      var n := |ys| - 1;
      var ys' := ys[..n];
      assert (xs + ys)[..|xs + ys| - 1] == xs + ys';
      assert (xs + ys)[|xs + ys| - 1] == ys[n];
      MapReadingsAppend(xs, ys', p, dir, write);
      var o1 := MapReadings(xs, p, dir, write).0;
      var mid := MapReadings(ys', p1, dir, write);
      var (url, left) := ResolvePhoto(ys[n], mid.1, dir, write);
      var t := Transform(ys[n], url);
      assert MapReadings(ys, p1, dir, write) == (mid.0 + [t], left);
      assert MapReadings(xs + ys, p, dir, write) == ((o1 + mid.0) + [t], left);
      assert (o1 + mid.0) + [t] == o1 + (mid.0 + [t]);
    }
  }

  /**
   * The pass over the categories is the pass over all the batch's readings
   * in order: the output categories hold exactly the readings that mapping
   * `AllRows(c)` in one go produces, and it leaves the same photo map.
   */
  lemma {:induction false} CampoFlatten(c: Campo, p: map<string, Value>, dir: string, write: WriteOracle)
    requires CampoReady(c, p)
    ensures RowsReady(AllRows(c), p)
    ensures var (out, q) := MapCampo(c, p, dir, write);
      AllRows(out) == MapReadings(AllRows(c), p, dir, write).0 && q == MapReadings(AllRows(c), p, dir, write).1
    decreases |c|
  {
    AllRowsReady(c, p);
    if c != [] {
      var n := |c| - 1;
      assert CampoReady(c[..n], p);
      CampoFlatten(c[..n], p, dir, write);
      MapCampoSnoc(c, n, p, dir, write);
      assert c[..n + 1] == c;
      var done := MapCampo(c[..n], p, dir, write);
      var step := MapCategory(c[n], done.1, dir, write);
      var out := done.0 + [step.0];
      assert out[..|out| - 1] == done.0 && out[|out| - 1] == step.0;
      var xs, ys := AllRows(c[..n]), if c[n].slot.Rows? then c[n].slot.rows else [];
      assert AllRows(c) == xs + ys;
      MapReadingsAppend(xs, ys, p, dir, write);
    }
  }

  /**
   * Photo resolution over the whole batch when no two of its readings share
   * an id: each reading's url is what resolving it alone against the photo
   * map at the start of the pass yields, so a pending photo whose write
   * succeeds always gives its reading the file path; and an entry leaves
   * the map exactly when the write of the reading carrying its id succeeded.
   */
  lemma CampoDistinctResolution(c: Campo, p: map<string, Value>, dir: string, write: WriteOracle)
    requires CampoReady(c, p)
    requires DistinctKeys(AllRows(c))
    ensures RowsReady(AllRows(c), p)
    ensures var (out, q) := MapCampo(c, p, dir, write);
      |AllRows(out)| == |AllRows(c)|
      && MatchesAlone(AllRows(c), AllRows(out), p, dir, write)
      && RemovedExactly(AllRows(c), p, q, dir, write)
  {
    CampoFlatten(c, p, dir, write);
    DistinctResolution(AllRows(c), p, dir, write);
  }

  /**
   * A batch whose `Campo` has no keys (an empty object, a number, a boolean,
   * the empty string) passes unchanged and leaves the photo map as it was.
   */
  lemma KeylessCampoPass(fields: map<string, Value>, p: map<string, Value>, dir: string, write: WriteOracle)
    ensures Pass(Document(Some([]), fields), p, dir, write) == (Document(Some([]), fields), p)
  {
  }

  /**
   * An entry stored as `Null` (a falsy photo payload, or one without
   * `fotoBase64`) is never consumed when writing `Null` always fails, as
   * `Buffer.from(undefined, 'base64')` does by throwing inside the `try`.
   */
  lemma NullPhotoStays(c: Campo, p: map<string, Value>, dir: string, write: WriteOracle, k: string)
    requires CampoReady(c, p)
    requires forall path :: !write(path, Null)
    requires k in p && p[k] == Null
    ensures var q := MapCampo(c, p, dir, write).1; k in q && q[k] == Null
  {
    CampoPhotos(c, p, dir, write);
  }

  /**
   * A batch kept after a failed post is mapped again by the next pass, in
   * its transformed form: the new `comentario` is the whole record the
   * first pass wrote, and a reading whose photo entry is gone gets a null
   * url, even if the first pass had stored its photo.
   */
  lemma RepassNestsRecord(r: Reading, url: Value, p: map<string, Value>, dir: string, write: WriteOracle)
    requires CommentReadable(Field(r, ObsField))
    requires ReadingReady(Transform(r, url), p)
    ensures var r1 := Transform(r, url); var url2 := ResolvePhoto(r1, p, dir, write).0;
      Transform(r1, url2)[ObsField] == Info(Info(NormalizeComment(Field(r, ObsField)), url), url2)
    ensures PhotoKey(r).Some? && PhotoKey(r).value !in p ==> ResolvePhoto(Transform(r, url), p, dir, write).0 == Null
  {
    var r1 := Transform(r, url);
    assert Field(r1, ObsField) == Some(Info(NormalizeComment(Field(r, ObsField)), url));
    assert PhotoKey(r1) == PhotoKey(r);
  }

  /** The point code of "P1 - x" is "P1". */
  lemma ExamplePointCode()
    ensures PointCode("P1 - x") == "P1"
  {
    var s0, s1, s2 := "P1 - x", "1 - x", " - x";
    assert s0[1..] == s1 && s1[1..] == s2;
    assert s0[..3][0] == 'P' && s1[..3][0] == '1' && s2[..3] == " - ";
    assert Before(s2, " - ") == [];
    assert Before(s1, " - ") == "1";
    assert Before(s0, " - ") == "P1";
    assert !IsJsSpace('P') && !IsJsSpace('1');
    assert TrimStart("P1") == "P1";
    assert TrimEnd("P1") == "P1";
  }

  /**
   * A reading "5" at point "P1 - x" with an empty comment and a
   * pending photo whose write succeeds: the photo is stored as
   * "P1 - 5.jpg" in the storage directory, its entry (and only it)
   * leaves the map, and the comment becomes null.
   */
  lemma ExampleReading(dir: string, write: WriteOracle)
    requires forall path, data :: write(path, data)
    ensures var r := map[IdField := Str("5"), PocoField := Str("P1 - x"), ObsField := Str("")];
      var photos := map["5" := Opaque(true, 1), "7" := Opaque(true, 2)];
      && ReadingReady(r, photos)
      && ResolvePhoto(r, photos, dir, write) == (Str(JoinPath(dir, "P1 - 5.jpg")), map["7" := Opaque(true, 2)])
      && NormalizeComment(Field(r, ObsField)) == Null
  {
    var r := map[IdField := Str("5"), PocoField := Str("P1 - x"), ObsField := Str("")];
    var photos := map["5" := Opaque(true, 1), "7" := Opaque(true, 2)];
    ExamplePointCode();
    assert PhotoKey(r) == Some("5") && HasPhoto(r, photos);
    assert PhotoPath(dir, "P1 - x", "5") == JoinPath(dir, "P1 - 5.jpg");
    assert photos - {"5"} == map["7" := Opaque(true, 2)];
  }
}
