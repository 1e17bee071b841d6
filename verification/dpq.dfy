/** The datapath query parser of `ais/dpq.go`: a raw URL query is cut into
    `&`-separated segments, each segment is split at its first `=` into key and value,
    and the keys of a fixed set are stored into a flat record. Everything else is
    ignored. Three things the parser calls are parameters of the model (`Env`): the
    table from key strings to the supported parameters, `url.QueryUnescape` (which may
    fail) and `cos.IsParseBool`. The model follows a release build: the debug-only
    check on unknown keys is not modelled.
 */
module Dpq {
  import opened Wrappers
  import Strings

  /** The supported query parameters. */
  datatype Param =
    | Provider | Namespace | SkipVC | UnixTime | UUID | Archpath | Archmime | IsGFN
    | OrigURL | AppendType | AppendHandle | OWT | FltPresence | DontAddRemote | Binfo
    | ETLName | Silent | LatestVer

  /** Parameters whose value is URL-unescaped before it is stored. */
  predicate Escaped(p: Param) {
    p.Namespace? || p.Archpath? || p.Archmime? || p.OrigURL? || p.AppendHandle?
  }

  /** Parameters stored as booleans. */
  predicate IsFlag(p: Param) {
    p.SkipVC? || p.IsGFN? || p.DontAddRemote? || p.Silent? || p.LatestVer?
  }

  /** What the parser calls but does not define: the key strings of the supported
      parameters, `url.QueryUnescape` (`None` on a malformed escape) and
      `cos.IsParseBool`. */
  datatype Env = Env(
    keyOf: string -> Option<Param>,
    unescape: string -> Option<string>,
    parseBool: string -> bool)

  datatype BckQ = BckQ(provider: string, namespace: string)
  datatype ApndQ = ApndQ(ty: string, hdl: string)
  datatype ArchQ = ArchQ(path: string, mime: string, regx: string, mode: string)

  /** The `dpq` record. `arch.regx`, `arch.mode` and `isS3` belong to the record
      but are never set by the parser. */
  datatype DpqRec = DpqRec(
    bck: BckQ,
    apnd: ApndQ,
    arch: ArchQ,
    ptime: string,
    uuid: string,
    origURL: string,
    owt: string,
    fltPresence: string,
    etlName: string,
    binfo: string,
    skipVC: bool,
    isGFN: bool,
    dontAddRemote: bool,
    silent: bool,
    latestVer: bool,
    isS3: bool)

  /** The value one parameter holds in the record. */
  datatype FieldValue = Str(s: string) | Flag(b: bool)

  function Field(d: DpqRec, p: Param): FieldValue {
    match p
    case Provider => Str(d.bck.provider)
    case Namespace => Str(d.bck.namespace)
    case SkipVC => Flag(d.skipVC)
    case UnixTime => Str(d.ptime)
    case UUID => Str(d.uuid)
    case Archpath => Str(d.arch.path)
    case Archmime => Str(d.arch.mime)
    case IsGFN => Flag(d.isGFN)
    case OrigURL => Str(d.origURL)
    case AppendType => Str(d.apnd.ty)
    case AppendHandle => Str(d.apnd.hdl)
    case OWT => Str(d.owt)
    case FltPresence => Str(d.fltPresence)
    case DontAddRemote => Flag(d.dontAddRemote)
    case Binfo => Str(d.binfo)
    case ETLName => Str(d.etlName)
    case Silent => Flag(d.silent)
    case LatestVer => Flag(d.latestVer)
  }

  /** The fields no parameter reaches. */
  predicate SameUnreached(a: DpqRec, b: DpqRec) {
    a.arch.regx == b.arch.regx && a.arch.mode == b.arch.mode && a.isS3 == b.isS3
  }

  /** Every field holds its zero value. */
  predicate IsZero(d: DpqRec) {
    (forall p :: Field(d, p) == (if IsFlag(p) then Flag(false) else Str(""))) &&
    d.arch.regx == "" && d.arch.mode == "" && !d.isS3
  }

  /** `dpqFree`: the record is reset to the zero value. Handing it back to `dpqPool`
      (a `sync.Pool`) is left out, as is `dpqAlloc`. */
  function DpqFree(d: DpqRec): (r: DpqRec)
    ensures IsZero(r)
  {
    DpqRec(BckQ("", ""), ApndQ("", ""), ArchQ("", "", "", ""),
           "", "", "", "", "", "", "", false, false, false, false, false, false)
  }

  /** Assign one parameter's field; `x` has the kind of that field. */
  function Store(d: DpqRec, p: Param, x: FieldValue): (r: DpqRec)
    requires x.Flag? <==> IsFlag(p)
    ensures Field(r, p) == x
    ensures SameUnreached(r, d)
  {
    match p
    case Provider => d.(bck := d.bck.(provider := x.s))
    case Namespace => d.(bck := d.bck.(namespace := x.s))
    case SkipVC => d.(skipVC := x.b)
    case UnixTime => d.(ptime := x.s)
    case UUID => d.(uuid := x.s)
    case Archpath => d.(arch := d.arch.(path := x.s))
    case Archmime => d.(arch := d.arch.(mime := x.s))
    case IsGFN => d.(isGFN := x.b)
    case OrigURL => d.(origURL := x.s)
    case AppendType => d.(apnd := d.apnd.(ty := x.s))
    case AppendHandle => d.(apnd := d.apnd.(hdl := x.s))
    case OWT => d.(owt := x.s)
    case FltPresence => d.(fltPresence := x.s)
    case DontAddRemote => d.(dontAddRemote := x.b)
    case Binfo => d.(binfo := x.s)
    case ETLName => d.(etlName := x.s)
    case Silent => d.(silent := x.b)
    case LatestVer => d.(latestVer := x.b)
  }

  /** Storing one parameter leaves every other parameter's field as it was. */
  lemma StoreFrame(d: DpqRec, p: Param, x: FieldValue, q: Param)
    requires x.Flag? <==> IsFlag(p)
    requires q != p
    ensures Field(Store(d, p, x), q) == Field(d, q)
  {
    if x.Flag? {
      FlagStoreFrame(d, p, x.b, q);
    } else if InSubRecord(p) {
      SubStoreFrame(d, p, x.s, q);
    } else {
      TopStoreFrame(d, p, x.s, q);
    }
  }

  /** Parameters stored in `bck`, `apnd` or `arch`. */
  predicate InSubRecord(p: Param) {
    p.Provider? || p.Namespace? || p.AppendType? || p.AppendHandle? || p.Archpath? || p.Archmime?
  }

  lemma FlagStoreFrame(d: DpqRec, p: Param, b: bool, q: Param)
    requires IsFlag(p) && q != p
    ensures Field(Store(d, p, Flag(b)), q) == Field(d, q)
  {
  }

  lemma SubStoreFrame(d: DpqRec, p: Param, s: string, q: Param)
    requires InSubRecord(p) && q != p
    ensures Field(Store(d, p, Str(s)), q) == Field(d, q)
  {
  }

  lemma TopStoreFrame(d: DpqRec, p: Param, s: string, q: Param)
    requires !IsFlag(p) && !InSubRecord(p) && q != p
    ensures Field(Store(d, p, Str(s)), q) == Field(d, q)
  {
  }

  /** The error `parse` returns: a malformed escape in the value of an escaped parameter. */
  datatype DpqError = BadEscape(param: Param, value: string)

  /** `keyEQval`: split at the first `=`, but only when it is not the first character. */
  function KeyEqVal(s: string): (string, string, bool) {
    var i := Strings.IndexByte(s, '=');
    if i > 0 then (s[..i], s[i + 1..], true) else (s, "", false)
  }

  /** A split names a non-empty key free of `=` and gives back the segment when
      joined with `=`; without a split the whole segment is the key. */
  lemma KeyEqValSpec(s: string)
    ensures var r := KeyEqVal(s);
      r.2 ==> |r.0| > 0 && '=' !in r.0 && s == r.0 + "=" + r.1
    ensures var r := KeyEqVal(s);
      !r.2 ==> r == (s, "", false) && ('=' !in s || s[0] == '=')
  {
    var i := Strings.IndexByte(s, '=');
    if i > 0 {
      assert s == s[..i] + "=" + s[i + 1..];
    }
  }

  /** A key without `=` joined to any value splits back into the two. */
  lemma KeyEqValJoin(k: string, v: string)
    requires |k| > 0 && '=' !in k
    ensures KeyEqVal(k + "=" + v) == (k, v, true)
  {
    var s := k + "=" + v;
    assert s[|k|] == '=' && s[..|k|] == k;
    assert s[|k| + 1..] == v;
  }

  /** The value a parameter's field receives from a raw query value. */
  function StoredValue(p: Param, v: string, env: Env): FieldValue {
    if IsFlag(p) then Flag(env.parseBool(v))
    else if Escaped(p) then Str(env.unescape(v).GetOr(""))
    else Str(v)
  }

  /** One arm of the `switch`: store the parameter's value; an escaped parameter whose
      value does not unescape gets the empty string and ends the parse with an error. */
  function Apply(d: DpqRec, p: Param, v: string, env: Env): (r: (DpqRec, Outcome<DpqError>))
    ensures Field(r.0, p) == StoredValue(p, v, env)
    ensures SameUnreached(r.0, d)
    ensures r.1.Fail? <==> Escaped(p) && env.unescape(v).None?
    ensures r.1.Fail? ==> r.1.error == BadEscape(p, v)
  {
    if Escaped(p) then
      match env.unescape(v)
      case None => (Store(d, p, Str("")), Fail(BadEscape(p, v)))
      case Some(u) => (Store(d, p, Str(u)), Pass)
    else if IsFlag(p) then (Store(d, p, Flag(env.parseBool(v))), Pass)
    else (Store(d, p, Str(v)), Pass)
  }

  /** Applying one parameter leaves every other parameter's field as it was. */
  lemma ApplyFrame(d: DpqRec, p: Param, v: string, env: Env, q: Param)
    requires q != p
    ensures Field(Apply(d, p, v, env).0, q) == Field(d, q)
  {
    if Escaped(p) {
      StoreFrame(d, p, Str(env.unescape(v).GetOr("")), q);
    } else if IsFlag(p) {
      StoreFrame(d, p, Flag(env.parseBool(v)), q);
    } else {
      StoreFrame(d, p, Str(v), q);
    }
  }

  /** The key a segment is dispatched on, and its value. */
  function SegKey(seg: string): string {
    KeyEqVal(seg).0
  }

  function SegValue(seg: string): string {
    KeyEqVal(seg).1
  }

  /** Handle one segment: a key outside the supported set changes nothing. */
  function Step(d: DpqRec, seg: string, env: Env): (r: (DpqRec, Outcome<DpqError>))
    ensures env.keyOf(SegKey(seg)).None? ==> r == (d, Pass)
    ensures env.keyOf(SegKey(seg)).Some? ==> r == Apply(d, env.keyOf(SegKey(seg)).value, SegValue(seg), env)
  {
    var kv := KeyEqVal(seg);
    match env.keyOf(kv.0)
    case None => (d, Pass)
    case Some(p) => Apply(d, p, kv.1, env)
  }

  /** After one segment a parameter holds the segment's value when the segment names
      it, and its old value otherwise. */
  lemma StepField(d: DpqRec, seg: string, env: Env, p: Param)
    ensures Field(Step(d, seg, env).0, p) ==
      if env.keyOf(SegKey(seg)) == Some(p) then StoredValue(p, SegValue(seg), env) else Field(d, p)
  {
    var k := env.keyOf(SegKey(seg));
    if k.Some? && k.value != p {
      ApplyFrame(d, k.value, SegValue(seg), env, p);
    }
  }

  /** What the loop does with one segment: the `switch` of `parse`, or any other
      handler when stating facts about the loop alone. */
  type Handler = (DpqRec, string) -> (DpqRec, Outcome<DpqError>)

  function Handle(env: Env): Handler {
    (x: DpqRec, seg: string) => Step(x, seg, env)
  }

  /** The first segment of a non-empty raw query: everything before the first `&`
      (`strings.IndexByte`), or the whole query when there is none. */
  function FirstSeg(query: string): (seg: string)
    ensures '&' !in seg
  {
    var i := Strings.IndexByte(query, '&');
    if i >= 0 then query[..i] else query
  }

  /** What is left of the query after its first segment and the `&` after it. */
  function RestAfter(query: string): (rest: string)
    requires query != ""
    ensures |rest| < |query|
    ensures '&' in query ==> query == FirstSeg(query) + "&" + rest
    ensures '&' !in query ==> rest == "" && FirstSeg(query) == query
  {
    var i := Strings.IndexByte(query, '&');
    if i >= 0 then
      assert query == query[..i] + "&" + query[i + 1..];
      query[i + 1..]
    else ""
  }

  /** The loop of `dpq.parse`: hand each segment of the raw query to `h`; the first
      error ends it. */
  function ParseWith(d: DpqRec, query: string, h: Handler): (r: (DpqRec, Outcome<DpqError>))
    ensures query == "" ==> r == (d, Pass)
    decreases |query|
  {
    if query == "" then (d, Pass)
    else
      var s := h(d, FirstSeg(query));
      if s.1.Fail? then s else ParseWith(s.0, RestAfter(query), h)
  }

  /** `dpq.parse`. */
  function Parse(d: DpqRec, query: string, env: Env): (DpqRec, Outcome<DpqError>) {
    ParseWith(d, query, Handle(env))
  }

  /** Reference semantics: hand the segments to `h` one after another, stopping at the
      first error. */
  function Run(d: DpqRec, segs: seq<string>, h: Handler): (DpqRec, Outcome<DpqError>)
    decreases |segs|
  {
    if |segs| == 0 then (d, Pass)
    else
      var s := h(d, segs[0]);
      if s.1.Fail? then s else Run(s.0, segs[1..], h)
  }

  function ApplyAll(d: DpqRec, segs: seq<string>, env: Env): (DpqRec, Outcome<DpqError>) {
    Run(d, segs, Handle(env))
  }

  /** The segment makes the parse fail. */
  predicate FailsOn(seg: string, env: Env) {
    var k := env.keyOf(SegKey(seg));
    k.Some? && Escaped(k.value) && env.unescape(SegValue(seg)).None?
  }

  /** The loop consumes the query one segment at a time: a query of `&`-free segments
      joined by `&` (the last one non-empty) is processed as those segments in order. */
  lemma {:induction false} ParseJoin(d: DpqRec, segs: seq<string>, h: Handler)
    requires |segs| >= 1 && segs[|segs| - 1] != ""
    requires forall k :: 0 <= k < |segs| ==> '&' !in segs[k]
    ensures ParseWith(d, Strings.Join(segs, "&"), h) == Run(d, segs, h)
    decreases |segs|
  {
    var q := Strings.Join(segs, "&");
    if |segs| == 1 {
      assert q == segs[0];
      assert Strings.IndexByte(q, '&') == -1;
      assert Run(h(d, segs[0]).0, [], h) == (h(d, segs[0]).0, Pass);
    } else {
      var a := segs[0];
      var b := Strings.Join(segs[1..], "&");
      assert q == a + "&" + b;
      assert q[|a|] == '&' && q[..|a|] == a;
      assert Strings.IndexByte(q, '&') == |a|;
      assert q[|a| + 1..] == b;
      var s := h(d, a);
      if !s.1.Fail? {
        ParseJoin(s.0, segs[1..], h);
      }
    }
  }

  /** A trailing `&` adds no segment: appending `&` to a query that does not already
      end in one parses exactly as the query does. */
  lemma {:induction false} TrailingAmpersand(d: DpqRec, q: string, h: Handler)
    requires q != "" && q[|q| - 1] != '&'
    ensures ParseWith(d, q + "&", h) == ParseWith(d, q, h)
    decreases |q|
  {
    var s := q + "&";
    var i := Strings.IndexByte(q, '&');
    if i < 0 {
      assert s[|q|] == '&' && s[..|q|] == q && s[|q| + 1..] == "";
      assert Strings.IndexByte(s, '&') == |q|;
    } else {
      assert s[i] == '&' && s[..i] == q[..i];
      assert Strings.IndexByte(s, '&') == i;
      assert FirstSeg(s) == FirstSeg(q);
      assert s[i + 1..] == q[i + 1..] + "&";
      assert RestAfter(s) == RestAfter(q) + "&";
      var r := h(d, FirstSeg(q));
      if r.1.Pass? {
        TrailingAmpersand(r.0, RestAfter(q), h);
      }
    }
  }

  /** A handler that ignores the empty segment also ignores any extra `&`: appending
      one to any query, even an empty one or one already ending in `&`, parses the
      same. */
  lemma {:induction false} ExtraAmpersandWith(d: DpqRec, q: string, h: Handler)
    requires forall x :: h(x, "") == (x, Pass)
    ensures ParseWith(d, q + "&", h) == ParseWith(d, q, h)
    decreases |q|
  {
    var s := q + "&";
    var i := Strings.IndexByte(q, '&');
    if q == "" {
      assert Strings.IndexByte(s, '&') == 0;
      assert FirstSeg(s) == "" && RestAfter(s) == "";
    } else if i < 0 {
      assert s[|q|] == '&' && s[..|q|] == q && s[|q| + 1..] == "";
      assert Strings.IndexByte(s, '&') == |q|;
    } else {
      assert s[i] == '&' && s[..i] == q[..i];
      assert Strings.IndexByte(s, '&') == i;
      assert FirstSeg(s) == FirstSeg(q);
      assert s[i + 1..] == q[i + 1..] + "&";
      assert RestAfter(s) == RestAfter(q) + "&";
      var r := h(d, FirstSeg(q));
      if r.1.Pass? {
        ExtraAmpersandWith(r.0, RestAfter(q), h);
      }
    }
  }

  /** An empty segment changes nothing when no supported key is empty, so a query
      with any number of trailing `&` (`a&&`) parses as the query without them. */
  lemma ExtraAmpersand(d: DpqRec, q: string, env: Env)
    requires env.keyOf("") == None
    ensures Step(d, "", env) == (d, Pass)
    ensures Parse(d, q + "&", env) == Parse(d, q, env)
  {
    assert KeyEqVal("") == ("", "", false);
    forall x
      ensures Handle(env)(x, "") == (x, Pass)
    {
      assert SegKey("") == "";
    }
    ExtraAmpersandWith(d, q, Handle(env));
  }

  /** A segment without `=` (or starting with it) is a key with the empty value. */
  lemma SegmentWithoutEquals(seg: string)
    requires '=' !in seg
    ensures SegKey(seg) == seg && SegValue(seg) == ""
  {
  }

  /** Once a prefix of the segments fails, nothing after it is looked at. */
  lemma {:induction false} FailStops(d: DpqRec, a: seq<string>, b: seq<string>, h: Handler)
    requires Run(d, a, h).1.Fail?
    ensures Run(d, a + b, h) == Run(d, a, h)
    decreases |a|
  {
    assert |a| > 0;
    assert (a + b)[0] == a[0] && (a + b)[1..] == a[1..] + b;
    var s := h(d, a[0]);
    if !s.1.Fail? {
      FailStops(s.0, a[1..], b, h);
    }
  }

  /** Handing one more segment to the loop after a successful prefix. */
  lemma {:induction false} RunSnoc(d: DpqRec, segs: seq<string>, seg: string, h: Handler)
    requires Run(d, segs, h).1.Pass?
    ensures Run(d, segs + [seg], h) == h(Run(d, segs, h).0, seg)
    decreases |segs|
  {
    if |segs| == 0 {
      assert segs + [seg] == [seg];
      assert Run(h(d, seg).0, [], h) == (h(d, seg).0, Pass);
    } else {
      assert (segs + [seg])[0] == segs[0] && (segs + [seg])[1..] == segs[1..] + [seg];
      var s := h(d, segs[0]);
      RunSnoc(s.0, segs[1..], seg, h);
    }
  }

  /** A passing run passed before its last segment, which was then handed to `h`. */
  lemma RunSnocPasses(d: DpqRec, segs: seq<string>, h: Handler)
    requires |segs| > 0 && Run(d, segs, h).1.Pass?
    ensures Run(d, segs[..|segs| - 1], h).1.Pass?
    ensures Run(d, segs, h) == h(Run(d, segs[..|segs| - 1], h).0, segs[|segs| - 1])
  {
    var init := segs[..|segs| - 1];
    var seg := segs[|segs| - 1];
    assert segs == init + [seg];
    if Run(d, init, h).1.Fail? {
      FailStops(d, init, [seg], h);
    } else {
      RunSnoc(d, init, seg, h);
    }
  }

  /** A handler that never touches the unreached fields keeps the loop from touching
      them. */
  lemma {:induction false} ParseWithKeepsUnreached(d: DpqRec, query: string, h: Handler)
    requires forall x, seg :: SameUnreached(h(x, seg).0, x)
    ensures SameUnreached(ParseWith(d, query, h).0, d)
    decreases |query|
  {
    if query != "" {
      var s := h(d, FirstSeg(query));
      if !s.1.Fail? {
        ParseWithKeepsUnreached(s.0, RestAfter(query), h);
      }
    }
  }

  /** The parse never touches the fields no parameter reaches. */
  lemma ParseKeepsUnreached(d: DpqRec, query: string, env: Env)
    ensures SameUnreached(Parse(d, query, env).0, d)
  {
    forall x, seg
      ensures SameUnreached(Handle(env)(x, seg).0, x)
    {
      var s := Step(x, seg, env);
    }
    ParseWithKeepsUnreached(d, query, Handle(env));
  }

  /** The index of the first segment `fails` holds for, or the number of segments
      when there is none. */
  function FirstFailing(segs: seq<string>, fails: string -> bool): (j: nat)
    ensures j <= |segs|
    ensures j < |segs| ==> fails(segs[j])
    ensures forall k :: 0 <= k < j ==> !fails(segs[k])
    decreases |segs|
  {
    if |segs| == 0 then 0
    else if fails(segs[0]) then 0
    else 1 + FirstFailing(segs[1..], fails)
  }

  /** `h` fails on a segment exactly when `fails` holds for it, whatever the record,
      and then reports `err` of it. */
  ghost predicate FailsBy(h: Handler, fails: string -> bool, err: string -> DpqError) {
    forall x, seg :: (h(x, seg).1.Fail? <==> fails(seg)) && (h(x, seg).1.Fail? ==> h(x, seg).1.error == err(seg))
  }

  /** A handler whose failure depends on the segment alone fails the run exactly at
      the first failing segment, with that segment's error. */
  lemma {:induction false} RunFails(d: DpqRec, segs: seq<string>, h: Handler,
                                    fails: string -> bool, err: string -> DpqError)
    requires FailsBy(h, fails, err)
    ensures Run(d, segs, h).1.Fail? <==> FirstFailing(segs, fails) < |segs|
    ensures Run(d, segs, h).1.Fail? ==> Run(d, segs, h).1.error == err(segs[FirstFailing(segs, fails)])
    decreases |segs|
  {
    if |segs| > 0 {
      var s := h(d, segs[0]);
      if !s.1.Fail? {
        RunFails(s.0, segs[1..], h, fails, err);
        var j := FirstFailing(segs[1..], fails);
        assert FirstFailing(segs, fails) == j + 1;
        if j < |segs| - 1 {
          assert segs[1..][j] == segs[j + 1];
        }
      }
    }
  }

  /** The error a failing segment reports. */
  function EscapeError(seg: string, env: Env): DpqError {
    BadEscape(env.keyOf(SegKey(seg)).GetOr(Provider), SegValue(seg))
  }

  /** One segment fails exactly when it carries a malformed escape for an escaped
      parameter, and then reports that parameter and the raw value. */
  lemma StepFails(x: DpqRec, seg: string, env: Env)
    ensures Step(x, seg, env).1.Fail? <==> FailsOn(seg, env)
    ensures Step(x, seg, env).1.Fail? ==> Step(x, seg, env).1.error == EscapeError(seg, env)
  {
  }

  function Failing(env: Env): string -> bool {
    (seg: string) => FailsOn(seg, env)
  }

  function Erring(env: Env): string -> DpqError {
    (seg: string) => EscapeError(seg, env)
  }

  /** The handler of the parser fails as `FailsOn` says; the premise `ApplyAllFailsAt` passes to `RunFails`. */
  lemma HandleFailsBy(env: Env)
    ensures FailsBy(Handle(env), Failing(env), Erring(env))
  {
    forall x, seg
      ensures Handle(env)(x, seg).1.Fail? <==> Failing(env)(seg)
      ensures Handle(env)(x, seg).1.Fail? ==> Handle(env)(x, seg).1.error == Erring(env)(seg)
    {
      StepFails(x, seg, env);
    }
  }

  /** The parse fails exactly when some segment carries a malformed escape, and then
      it reports the first such segment: the one at `FirstFailing`, before which no
      segment fails. */
  lemma ApplyAllFails(d: DpqRec, segs: seq<string>, env: Env)
    ensures ApplyAll(d, segs, env).1.Fail? <==> exists j :: 0 <= j < |segs| && FailsOn(segs[j], env)
    ensures ApplyAll(d, segs, env).1.Fail? ==>
      var j := FirstFailing(segs, Failing(env));
      j < |segs| && FailsOn(segs[j], env) &&
      (forall k :: 0 <= k < j ==> !FailsOn(segs[k], env)) &&
      ApplyAll(d, segs, env).1.error == BadEscape(env.keyOf(SegKey(segs[j])).value, SegValue(segs[j]))
  {
    ApplyAllFailsAt(d, segs, env);
    FirstFailingOn(segs, env);
    var j := FirstFailing(segs, Failing(env));
    if j < |segs| {
      EscapeErrorOf(segs[j], env);
    }
  }

  /** A failing segment's error names its parameter. */
  lemma EscapeErrorOf(seg: string, env: Env)
    requires FailsOn(seg, env)
    ensures EscapeError(seg, env) == BadEscape(env.keyOf(SegKey(seg)).value, SegValue(seg))
  {
  }

  /** The parse fails exactly at the first failing segment, with its error. */
  lemma ApplyAllFailsAt(d: DpqRec, segs: seq<string>, env: Env)
    ensures var j := FirstFailing(segs, Failing(env));
      (ApplyAll(d, segs, env).1.Fail? <==> j < |segs|) &&
      (j < |segs| ==> ApplyAll(d, segs, env).1.error == EscapeError(segs[j], env))
  {
    HandleFailsBy(env);
    RunFails(d, segs, Handle(env), Failing(env), Erring(env));
  }

  /** The first failing segment, in the terms of `FailsOn`. */
  lemma FirstFailingOn(segs: seq<string>, env: Env)
    ensures var j := FirstFailing(segs, Failing(env));
      (j < |segs| <==> exists i :: 0 <= i < |segs| && FailsOn(segs[i], env)) &&
      (j < |segs| ==> FailsOn(segs[j], env) && forall k :: 0 <= k < j ==> !FailsOn(segs[k], env))
  {
    var j := FirstFailing(segs, Failing(env));
    if j == |segs| {
      forall i | 0 <= i < |segs|
        ensures !FailsOn(segs[i], env)
      {
        assert !Failing(env)(segs[i]);
      }
    } else {
      assert Failing(env)(segs[j]);
      forall k | 0 <= k < j
        ensures !FailsOn(segs[k], env)
      {
        assert !Failing(env)(segs[k]);
      }
    }
  }

  /** The value a field ends up with after the segments when `val` says what each
      segment assigns to it: that of the last assigning segment, or `init`. */
  function LastWith(init: FieldValue, segs: seq<string>, val: string -> Option<FieldValue>): FieldValue
    decreases |segs|
  {
    if |segs| == 0 then init
    else
      var v := val(segs[|segs| - 1]);
      if v.Some? then v.value else LastWith(init, segs[..|segs| - 1], val)
  }

  /** `h` assigns parameter `p` what `val` says of the segment, or leaves it. */
  ghost predicate Tracks(h: Handler, p: Param, val: string -> Option<FieldValue>) {
    forall x, seg :: Field(h(x, seg).0, p) == val(seg).GetOr(Field(x, p))
  }

  /** The last step of a passing run, seen from parameter `p`. */
  lemma RunLastStep(d: DpqRec, segs: seq<string>, h: Handler, p: Param, val: string -> Option<FieldValue>)
    requires Tracks(h, p, val)
    requires |segs| > 0 && Run(d, segs, h).1.Pass?
    ensures Run(d, segs[..|segs| - 1], h).1.Pass?
    ensures Field(Run(d, segs, h).0, p) == val(segs[|segs| - 1]).GetOr(Field(Run(d, segs[..|segs| - 1], h).0, p))
  {
    RunSnocPasses(d, segs, h);
    var x := Run(d, segs[..|segs| - 1], h).0;
    assert Field(h(x, segs[|segs| - 1]).0, p) == val(segs[|segs| - 1]).GetOr(Field(x, p));
  }

  /** A handler that assigns a parameter's field what `val` says (or leaves it) makes
      the field end up with the last assigned value. */
  lemma {:induction false} RunLastWins(d: DpqRec, segs: seq<string>, h: Handler, p: Param,
                                       val: string -> Option<FieldValue>)
    requires Tracks(h, p, val)
    requires Run(d, segs, h).1.Pass?
    ensures Field(Run(d, segs, h).0, p) == LastWith(Field(d, p), segs, val)
    decreases |segs|
  {
    if |segs| > 0 {
      RunLastStep(d, segs, h, p, val);
      RunLastWins(d, segs[..|segs| - 1], h, p, val);
    }
  }

  /** What a segment assigns to parameter `p`: its stored value when its key is `p`. */
  function Assigns(p: Param, env: Env): string -> Option<FieldValue> {
    (seg: string) =>
      if env.keyOf(SegKey(seg)) == Some(p) then Some(StoredValue(p, SegValue(seg), env)) else None
  }

  /** The value parameter `p` ends up with after the segments: that of its last
      occurrence, or the initial value when it does not occur. */
  function LastValue(d: DpqRec, p: Param, segs: seq<string>, env: Env): FieldValue {
    LastWith(Field(d, p), segs, Assigns(p, env))
  }

  lemma HandleTracks(env: Env, p: Param)
    ensures Tracks(Handle(env), p, Assigns(p, env))
  {
    forall x, seg
      ensures Field(Handle(env)(x, seg).0, p) == Assigns(p, env)(seg).GetOr(Field(x, p))
    {
      StepField(x, seg, env, p);
    }
  }

  /** A repeated parameter keeps the value of its last occurrence. */
  lemma LastOccurrenceWins(d: DpqRec, segs: seq<string>, p: Param, env: Env)
    requires ApplyAll(d, segs, env).1.Pass?
    ensures Field(ApplyAll(d, segs, env).0, p) == LastValue(d, p, segs, env)
  {
    HandleTracks(env, p);
    RunLastWins(d, segs, Handle(env), p, Assigns(p, env));
  }

  /** Segments whose keys are all outside the supported set leave the record as it was
      and report no error. */
  lemma {:induction false} UnknownKeysIgnored(d: DpqRec, segs: seq<string>, env: Env)
    requires forall k :: 0 <= k < |segs| ==> env.keyOf(SegKey(segs[k])).None?
    ensures ApplyAll(d, segs, env) == (d, Pass)
  {
    if |segs| > 0 {
      assert Handle(env)(d, segs[0]) == (d, Pass);
      UnknownKeysIgnored(d, segs[1..], env);
    }
  }
}
