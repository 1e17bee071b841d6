/** The registry of active S3 multipart uploads (ais/s3/mpt.go).

    The registry maps an upload ID to the upload's bucket, object name, initiation
    time and the parts received so far, in arrival order. Each public function of
    the source runs under the registry's mutex, so each is one atomic step here: a
    function from the registry before to the registry after. The clock is a
    parameter, and so is the order in which Go happens to iterate the map.
 */
module Mpt {
  import opened Wrappers
  import Strings

  const MinInt64: int := -0x8000_0000_0000_0000
  const MaxInt64: int := 0x7fff_ffff_ffff_ffff
  const TwoTo64: int := 0x1_0000_0000_0000_0000

  type Int64 = x: int | MinInt64 <= x <= MaxInt64

  /** `MptPart`. */
  datatype MptPart = MptPart(md5: string, fqn: string, size: Int64, num: Int64)

  /** `mpt`; `ctime` is the time of `InitUpload`, in nanoseconds. */
  datatype Upload = Upload(bckName: string, objName: string, parts: seq<MptPart>, ctime: int)

  /** `uploads`, keyed by upload ID. */
  type Registry = map<string, Upload>

  /** `PartInfo` of a completion request (only the part number is consulted). */
  datatype PartInfo = PartInfo(etag: string, partNumber: Int64, size: Int64)

  datatype MptError =
    | UploadNotFound(id: string)
    | PartNotFound(id: string, num: Int64)
    | InvalidPartNum(s: string, cause: Strings.NumError)

  /** `InitUpload`: (re)starts upload `id` with no parts; nothing else changes. */
  function InitUpload(up: Registry, id: string, bckName: string, objName: string, now: int): (r: Registry)
    ensures r.Keys == up.Keys + {id}
    ensures r[id] == Upload(bckName, objName, [], now)
    ensures forall k :: k in up && k != id ==> r[k] == up[k]
  {
    up[id := Upload(bckName, objName, [], now)]
  }

  /** `UploadExists`. */
  predicate UploadExists(up: Registry, id: string) {
    id in up
  }

  /** `GetUpload`. */
  function GetUpload(up: Registry, id: string): (r: Result<Upload, MptError>)
    ensures r.Ok? <==> UploadExists(up, id)
    ensures r.Ok? ==> r.value == up[id]
    ensures r.Err? ==> r.error == UploadNotFound(id)
  {
    if id in up then Ok(up[id]) else Err(UploadNotFound(id))
  }

  /** `AddPart`: an unknown ID is an error and leaves the registry as it was; a
      known one gets the part at the end of its list, and no other upload changes. */
  function AddPart(up: Registry, id: string, part: MptPart): (r: (Registry, Outcome<MptError>))
    ensures id !in up ==> r.0 == up && r.1 == Fail(UploadNotFound(id))
    ensures id in up ==> r.1 == Pass && r.0.Keys == up.Keys
    ensures id in up ==> r.0[id] == up[id].(parts := up[id].parts + [part])
    ensures forall k :: k in up && k != id ==> r.0[k] == up[k]
  {
    if id !in up then (up, Fail(UploadNotFound(id)))
    else (up[id := up[id].(parts := up[id].parts + [part])], Pass)
  }

  /** `upload.getPart(num)`: the first part with that number. */
  function GetPart(u: Upload, num: Int64): (r: Option<MptPart>)
    ensures r.None? <==> forall i :: 0 <= i < |u.parts| ==> u.parts[i].num != num
    ensures r.Some? ==> r.value in u.parts && r.value.num == num
  {
    FirstWithNum(u.parts, num)
  }

  function FirstWithNum(parts: seq<MptPart>, num: Int64): (r: Option<MptPart>)
    ensures r.None? <==> forall i :: 0 <= i < |parts| ==> parts[i].num != num
    ensures r.Some? ==> r.value in parts && r.value.num == num
  {
    if |parts| == 0 then None
    else if parts[0].num == num then Some(parts[0])
    else FirstWithNum(parts[1..], num)
  }

  /** The first requested part number the upload does not have, if any. */
  predicate FirstMissing(u: Upload, req: seq<PartInfo>, k: int) {
    0 <= k < |req| && GetPart(u, req[k].partNumber).None?
    && forall j :: 0 <= j < k ==> GetPart(u, req[j].partNumber).Some?
  }

  /** `CheckParts`: fails on an unknown upload, and on the first requested part
      number the upload lacks; otherwise returns, in the requested order, one stored
      part per requested number. */
  method CheckParts(up: Registry, id: string, req: seq<PartInfo>) returns (r: Result<seq<MptPart>, MptError>)
    ensures id !in up ==> r == Err(UploadNotFound(id))
    ensures id in up ==> (r.Err? <==> exists k :: 0 <= k < |req| && GetPart(up[id], req[k].partNumber).None?)
    ensures id in up && r.Err? ==> exists k :: FirstMissing(up[id], req, k) && r.error == PartNotFound(id, req[k].partNumber)
    ensures r.Ok? ==> |r.value| == |req|
    ensures r.Ok? ==> forall k :: 0 <= k < |req| ==>
      r.value[k] == GetPart(up[id], req[k].partNumber).value && r.value[k] in up[id].parts
  {
    if id !in up {
      return Err(UploadNotFound(id));
    }
    var upload := up[id];
    // every requested number must name a stored part before any is collected
    var i := 0;
    while i < |req|
      invariant 0 <= i <= |req|
      invariant forall j :: 0 <= j < i ==> GetPart(upload, req[j].partNumber).Some?
    {
      if GetPart(upload, req[i].partNumber).None? {
        assert FirstMissing(upload, req, i);
        return Err(PartNotFound(id, req[i].partNumber));
      }
      i := i + 1;
    }
    // then copy them out
    var nparts: seq<MptPart> := [];
    i := 0;
    while i < |req|
      invariant 0 <= i <= |req|
      invariant |nparts| == i
      invariant forall j :: 0 <= j < i ==> nparts[j] == GetPart(upload, req[j].partNumber).value
    {
      nparts := nparts + [GetPart(upload, req[i].partNumber).value];
      i := i + 1;
    }
    return Ok(nparts);
  }

  /** `ParsePartNum`: `strconv.ParseInt(s, 10, 16)`. It succeeds exactly on decimal
      strings (sign and leading zeros allowed) whose value fits in 16 signed bits; the
      error keeps the string and the cause, which is a range error as soon as the
      digits after the sign exceed 16 unsigned bits, even before a non-digit. The
      range named in the message (1 to `MaxPartsPerUpload`) is not checked. */
  function ParsePartNum(s: string): (r: Result<Int64, MptError>)
    ensures r.Ok? <==> Strings.IsDecimal(s) && -0x8000 <= Strings.SignedValue(s) <= 0x7fff
    ensures r.Ok? ==> r.value == Strings.SignedValue(s)
    ensures Strings.IsDecimal(s) && !(-0x8000 <= Strings.SignedValue(s) <= 0x7fff) ==>
      r == Err(InvalidPartNum(s, Strings.ErrRange))
    ensures Strings.Overflows(Strings.Body(s), 0xffff) ==> r == Err(InvalidPartNum(s, Strings.ErrRange))
    ensures !Strings.IsDecimal(s) && !Strings.Overflows(Strings.Body(s), 0xffff) ==>
      r == Err(InvalidPartNum(s, Strings.ErrSyntax))
  {
    Strings.ParseIntAccepts(s, Strings.Bits16);
    match Strings.ParseInt(s, Strings.Bits16)
    case Ok(n) => Ok(n)
    case Err(e) => Err(InvalidPartNum(s, e))
  }

  /** Every 16-bit part number, written in decimal, parses back to itself. */
  lemma ParsePartNumFormat(n: int)
    requires -0x8000 <= n <= 0x7fff
    ensures ParsePartNum(Strings.FormatInt(n)) == Ok(n)
  {
    Strings.ParseFormat(n, Strings.Bits16);
  }

  /** The digits overflow before the letter is reached, so the cause is the range. */
  lemma ParsePartNumOverflowFirst()
    ensures ParsePartNum("65536a") == Err(InvalidPartNum("65536a", Strings.ErrRange))
  {
    var s := "65536a";
    assert Strings.Body(s) == s;
    assert s[..5] == "65536" && Strings.AllDigits(s[..5]);
    assert Strings.DecimalValue("6") == 6 by { assert "6"[..0] == ""; }
    assert Strings.DecimalValue("65") == 65 by { assert "65"[..1] == "6"; }
    assert Strings.DecimalValue("655") == 655 by { assert "655"[..2] == "65"; }
    assert Strings.DecimalValue("6553") == 6553 by { assert "6553"[..3] == "655"; }
    assert Strings.DecimalValue("65536") == 65536 by { assert "65536"[..4] == "6553"; }
  }

  /** Go's `int64` addition: the mathematical sum, wrapped into 64-bit two's complement. */
  function Wrap64(x: int): (r: Int64)
    ensures MinInt64 <= x <= MaxInt64 ==> r == x
    ensures (x - r) % TwoTo64 == 0
  {
    (x - MinInt64) % TwoTo64 + MinInt64
  }

  /** Wrapping the running sum after each part gives the wrapped total; the loop invariant of `ObjSize` rests on it. */
  lemma Wrap64Add(a: int, b: int)
    ensures Wrap64(Wrap64(a) + b) == Wrap64(a + b)
  {
    var k := (a - Wrap64(a)) / TwoTo64;
    assert a == Wrap64(a) + k * TwoTo64;
    assert (Wrap64(a) + b - MinInt64) == (a + b - MinInt64) - k * TwoTo64;
    ModMinusMultiple(a + b - MinInt64, k);
  }

  /** Subtracting a multiple of 2^64 does not change the residue; the step of `Wrap64Add`. */
  lemma ModMinusMultiple(x: int, k: int)
    ensures (x - k * TwoTo64) % TwoTo64 == x % TwoTo64
  {
    var q := x / TwoTo64;
    assert x == q * TwoTo64 + x % TwoTo64;
    assert x - k * TwoTo64 == (q - k) * TwoTo64 + x % TwoTo64;
  }

  /** The mathematical sum of the part sizes. */
  function SumSizes(parts: seq<MptPart>): int {
    if |parts| == 0 then 0 else SumSizes(parts[..|parts| - 1]) + parts[|parts| - 1].size
  }

  /** `ObjSize`: the sum of the part sizes in Go's `int64`, which is the exact sum
      whenever that fits; an unknown upload is an error. */
  method ObjSize(up: Registry, id: string) returns (r: Result<Int64, MptError>)
    ensures id !in up ==> r == Err(UploadNotFound(id))
    ensures id in up ==> r.Ok? && r.value == Wrap64(SumSizes(up[id].parts))
    ensures id in up && MinInt64 <= SumSizes(up[id].parts) <= MaxInt64 ==> r == Ok(SumSizes(up[id].parts))
  {
    if id !in up {
      return Err(UploadNotFound(id));
    }
    var parts := up[id].parts;
    var size: Int64 := 0;
    var i := 0;
    while i < |parts|
      invariant 0 <= i <= |parts|
      invariant size == Wrap64(SumSizes(parts[..i]))
    {
      assert parts[..i + 1][..i] == parts[..i];
      Wrap64Add(SumSizes(parts[..i]), parts[i].size);
      size := Wrap64(size + parts[i].size);
      i := i + 1;
    }
    assert parts[..|parts|] == parts;
    return Ok(size);
  }

  /** `FinishUpload`: the upload is gone and every other upload is untouched
      (whether it completed or was aborted only decides what is written to disk). */
  function FinishUpload(up: Registry, id: string, aborted: bool): (r: Registry)
    ensures !UploadExists(r, id)
    ensures r.Keys == up.Keys - {id}
    ensures forall k :: k in r ==> r[k] == up[k]
  {
    map k | k in up && k != id :: up[k]
  }

  /** An upload started and then fed `parts` holds exactly those parts, in order,
      with the bucket, object name and time it was started with. */
  lemma {:induction false} InitThenAddParts(up: Registry, id: string, bck: string, obj: string, now: int, parts: seq<MptPart>)
    ensures var r := AddParts(InitUpload(up, id, bck, obj, now), id, parts);
      UploadExists(r, id) && r[id] == Upload(bck, obj, parts, now)
  {
    if |parts| > 0 {
      InitThenAddParts(up, id, bck, obj, now, parts[..|parts| - 1]);
      assert parts[..|parts| - 1] + [parts[|parts| - 1]] == parts;
    }
  }

  /** `AddPart` called once per element of `parts`, in order. */
  function AddParts(up: Registry, id: string, parts: seq<MptPart>): Registry {
    if |parts| == 0 then up
    else AddPart(AddParts(up, id, parts[..|parts| - 1]), id, parts[|parts| - 1]).0
  }

  /** An upload that has finished can no longer take parts: `AddPart` fails and
      changes nothing. */
  lemma AddAfterFinishFails(up: Registry, id: string, aborted: bool, part: MptPart)
    ensures var f := FinishUpload(up, id, aborted);
      AddPart(f, id, part) == (f, Fail(UploadNotFound(id)))
  {
  }

  /** `UploadInfoResult`. */
  datatype UploadInfo = UploadInfo(key: string, uploadId: string, initiated: int)

  /** `ListMptUploadsResult`. */
  datatype ListResult = ListResult(bucket: string, uploads: seq<UploadInfo>, isTruncated: bool)

  function InfoOf(up: Registry, id: string): UploadInfo
    requires id in up
  {
    UploadInfo(up[id].objName, id, up[id].ctime)
  }

  /** `order` lists every upload ID exactly once: one of the orders Go may iterate the map in. */
  ghost predicate IsEnumeration(up: Registry, order: seq<string>) {
    (forall k :: k in up <==> k in order)
    && forall i, j :: 0 <= i < j < |order| ==> order[i] != order[j]
  }

  function Infos(up: Registry, order: seq<string>): (r: seq<UploadInfo>)
    requires forall k :: k in order ==> k in up
    ensures |r| == |order|
    ensures forall i :: 0 <= i < |order| ==> r[i] == InfoOf(up, order[i])
  {
    if |order| == 0 then [] else [InfoOf(up, order[0])] + Infos(up, order[1..])
  }

  predicate SortedByInitiated(s: seq<UploadInfo>) {
    forall i, j :: 0 <= i < j < |s| ==> s[i].initiated <= s[j].initiated
  }

  function Insert(x: UploadInfo, s: seq<UploadInfo>): (r: seq<UploadInfo>)
    requires SortedByInitiated(s)
    ensures SortedByInitiated(r)
    ensures multiset(r) == multiset(s) + multiset{x}
    ensures |r| == |s| + 1 && (r[0] == x || (|s| > 0 && r[0] == s[0]))
  {
    if |s| == 0 then [x]
    else if x.initiated <= s[0].initiated then
      SortedCons(x, s);
      [x] + s
    else
      var t := Insert(x, s[1..]);
      assert s == [s[0]] + s[1..];
      SortedCons(s[0], t);
      [s[0]] + t
  }

  /** Putting an entry no later than the head in front keeps a listing sorted; the step of `Insert`. */
  lemma SortedCons(a: UploadInfo, t: seq<UploadInfo>)
    requires SortedByInitiated(t) && (|t| > 0 ==> a.initiated <= t[0].initiated)
    ensures SortedByInitiated([a] + t)
  {
  }

  /** `sort.Slice` by initiation time. Go's sort is not stable; since the input order
      is itself arbitrary, keeping ties in input order loses no behaviour. */
  function SortByInitiated(s: seq<UploadInfo>): (r: seq<UploadInfo>)
    ensures SortedByInitiated(r)
    ensures multiset(r) == multiset(s)
  {
    if |s| == 0 then []
    else
      assert s == [s[0]] + s[1..];
      Insert(s[0], SortByInitiated(s[1..]))
  }

  /** Index just past the entry for `idMarker`, or 0 when there is none. */
  function MarkerEnd(s: seq<UploadInfo>, idMarker: string): (from: nat)
    ensures from <= |s|
    ensures from > 0 ==> s[from - 1].uploadId == idMarker
    ensures from > 0 ==> forall j :: 0 <= j < from - 1 ==> s[j].uploadId != idMarker
    ensures from == 0 ==> forall j :: 0 <= j < |s| ==> s[j].uploadId != idMarker
  {
    if |s| == 0 then 0
    else if s[0].uploadId == idMarker then 1
    else
      var f := MarkerEnd(s[1..], idMarker);
      if f == 0 then 0 else f + 1
  }

  function Truncate(s: seq<UploadInfo>, maxUploads: int): (r: seq<UploadInfo>)
    ensures maxUploads > 0 ==> |r| <= maxUploads
    ensures r <= s
    ensures maxUploads <= 0 || |s| <= maxUploads ==> r == s
  {
    if maxUploads > 0 && |s| > maxUploads then s[..maxUploads] else s
  }

  /** `ListUploads` as it is meant to behave: the uploads by ascending initiation
      time, resuming after `idMarker` when it names one, cut to `maxUploads` when
      that is positive. */
  function ListUploads(up: Registry, order: seq<string>, bckName: string, idMarker: string, maxUploads: int)
    : (r: ListResult)
    requires IsEnumeration(up, order)
    ensures r.bucket == bckName
    ensures SortedByInitiated(r.uploads)
    ensures maxUploads > 0 ==> |r.uploads| <= maxUploads
    ensures forall e :: e in r.uploads ==> e.uploadId in up && e == InfoOf(up, e.uploadId)
    ensures r.isTruncated <==> idMarker != "" && idMarker in up
    ensures idMarker == "" && maxUploads <= 0 ==> forall id :: id in up ==> InfoOf(up, id) in r.uploads
    ensures idMarker == "" && maxUploads <= 0 ==> |r.uploads| == |up|
    ensures idMarker != "" && idMarker in up ==>
      InfoOf(up, idMarker) !in r.uploads && forall e :: e in r.uploads ==> up[idMarker].ctime <= e.initiated
    ensures forall id :: id in up && InfoOf(up, id) !in r.uploads && StartsAfterMarker(up, idMarker, id) ==>
      maxUploads > 0 && |r.uploads| == maxUploads && forall e :: e in r.uploads ==> e.initiated <= up[id].ctime
    ensures exists s :: IsWindow(up, order, idMarker, maxUploads, s, r.uploads)
  {
    var sorted := SortByInitiated(Infos(up, order));
    var from := if idMarker != "" then MarkerEnd(sorted, idMarker) else 0;
    ListUploadsFacts(up, order, sorted);
    ListingFacts(up, sorted, from, maxUploads);
    assert from > 0 ==> idMarker != "" && idMarker in up && sorted[from - 1] == InfoOf(up, idMarker) by {
      if from > 0 {
        assert sorted[from - 1] in sorted;
      }
    }
    forall id | id in up && InfoOf(up, id) !in Truncate(sorted[from..], maxUploads) && StartsAfterMarker(up, idMarker, id)
      ensures maxUploads > 0 && |Truncate(sorted[from..], maxUploads)| == maxUploads &&
        forall e :: e in Truncate(sorted[from..], maxUploads) ==> e.initiated <= up[id].ctime
    {
      ListingComplete(up, sorted, from, idMarker, maxUploads, id);
    }
    assert IsWindow(up, order, idMarker, maxUploads, sorted, Truncate(sorted[from..], maxUploads));
    assert idMarker != "" && idMarker in up ==> InfoOf(up, idMarker) in sorted;
    assert idMarker != "" ==> var r := Truncate(sorted[from..], maxUploads);
      idMarker in up ==> InfoOf(up, idMarker) !in r && forall e :: e in r ==> up[idMarker].ctime <= e.initiated
    by {
      if idMarker != "" {
        SortedDistinct(up, order, sorted);
        MarkerExcluded(up, sorted, from, idMarker, maxUploads);
      }
    }
    ListResult(bckName, Truncate(sorted[from..], maxUploads), from > 0)
  }

  /** `listed` is what `ListUploads` returns when `sort.Slice` arranges the uploads as
      `s`: some ordering of all of them by start time (the sort is not stable, so
      uploads started at the same time may come in any order), resumed after the
      marker and cut to the maximum. */
  predicate IsWindow(up: Registry, order: seq<string>, idMarker: string, maxUploads: int,
                     s: seq<UploadInfo>, listed: seq<UploadInfo>)
    requires forall k :: k in order ==> k in up
  {
    SortedByInitiated(s) && multiset(s) == multiset(Infos(up, order)) &&
    listed == Truncate(s[(if idMarker != "" then MarkerEnd(s, idMarker) else 0)..], maxUploads)
  }

  /** Upload `id` comes after the marker in every ordering by start time: there is no
      live marker, or the upload started strictly later than it. */
  predicate StartsAfterMarker(up: Registry, idMarker: string, id: string)
    requires id in up
  {
    idMarker == "" || idMarker !in up || up[idMarker].ctime < up[id].ctime
  }

  /** An upload left out of a listing that resumes after the marker was cut by the
      maximum: the page is full and holds only uploads no newer than it. */
  lemma ListingComplete(up: Registry, sorted: seq<UploadInfo>, from: nat, idMarker: string, maxUploads: int, id: string)
    requires SortedByInitiated(sorted) && from <= |sorted|
    requires from > 0 ==> idMarker != "" && idMarker in up && sorted[from - 1] == InfoOf(up, idMarker)
    requires id in up && InfoOf(up, id) in sorted && StartsAfterMarker(up, idMarker, id)
    requires InfoOf(up, id) !in Truncate(sorted[from..], maxUploads)
    ensures maxUploads > 0 && |Truncate(sorted[from..], maxUploads)| == maxUploads
    ensures forall e :: e in Truncate(sorted[from..], maxUploads) ==> e.initiated <= up[id].ctime
  {
    var p :| 0 <= p < |sorted| && sorted[p] == InfoOf(up, id);
    NotBeforeMarker(up, sorted, from, idMarker, id, p);
    SortedSuffix(sorted, from);
    CutAfter(sorted[from..], maxUploads, p - from);
  }

  /** An upload that started after the live marker does not sort before it (a step of
      `ListingComplete`). */
  lemma NotBeforeMarker(up: Registry, sorted: seq<UploadInfo>, from: nat, idMarker: string, id: string, p: nat)
    requires SortedByInitiated(sorted) && from <= |sorted| && p < |sorted|
    requires from > 0 ==> idMarker != "" && idMarker in up && sorted[from - 1] == InfoOf(up, idMarker)
    requires id in up && sorted[p] == InfoOf(up, id)
    ensures StartsAfterMarker(up, idMarker, id) ==> from <= p
  {
    if p < from {
      assert sorted[p].initiated <= sorted[from - 1].initiated;
    }
  }

  /** An entry of a sorted list missing from its cut lies beyond a full page of
      entries no newer than it (a step of `ListingComplete`). */
  lemma CutAfter(s: seq<UploadInfo>, maxUploads: int, q: nat)
    requires SortedByInitiated(s) && q < |s| && s[q] !in Truncate(s, maxUploads)
    ensures maxUploads > 0 && |Truncate(s, maxUploads)| == maxUploads
    ensures forall e :: e in Truncate(s, maxUploads) ==> e.initiated <= s[q].initiated
  {
    var r := Truncate(s, maxUploads);
    assert r == s[..maxUploads];
    forall e | e in r
      ensures e.initiated <= s[q].initiated
    {
      var j :| 0 <= j < |r| && r[j] == e;
      assert e == s[j];
    }
  }

  predicate Distinct<T(==)>(s: seq<T>) {
    forall i, j :: 0 <= i < j < |s| ==> s[i] != s[j]
  }

  lemma {:induction false} DistinctCount<T>(s: seq<T>, x: T)
    requires Distinct(s)
    ensures multiset(s)[x] <= 1
  {
    if |s| > 0 {
      assert s == [s[0]] + s[1..];
      DistinctCount(s[1..], x);
      assert s[0] !in s[1..];
    }
  }

  /** A permutation of a sequence without repetitions has none either. */
  lemma DistinctPermutation<T>(a: seq<T>, b: seq<T>)
    requires Distinct(a) && multiset(a) == multiset(b)
    ensures Distinct(b)
  {
    forall i, j | 0 <= i < j < |b|
      ensures b[i] != b[j]
    {
      if b[i] == b[j] {
        assert b == b[..i] + [b[i]] + b[i + 1..j] + [b[j]] + b[j + 1..];
        assert multiset(b)[b[i]] >= 2;
        DistinctCount(a, b[i]);
      }
    }
  }

  /** After a marker that names a live upload, the listing no longer holds it, and
      holds nothing initiated before it. */
  lemma MarkerExcluded(up: Registry, sorted: seq<UploadInfo>, from: nat, idMarker: string, maxUploads: int)
    requires Distinct(sorted) && SortedByInitiated(sorted)
    requires idMarker != "" && from == MarkerEnd(sorted, idMarker)
    requires forall e :: e in sorted ==> e.uploadId in up && e == InfoOf(up, e.uploadId)
    requires idMarker in up ==> InfoOf(up, idMarker) in sorted
    ensures idMarker in up ==> var r := Truncate(sorted[from..], maxUploads);
      InfoOf(up, idMarker) !in r && forall e :: e in r ==> up[idMarker].ctime <= e.initiated
  {
    if idMarker in up {
      var r := Truncate(sorted[from..], maxUploads);
      assert from > 0 by {
        var i :| 0 <= i < |sorted| && sorted[i] == InfoOf(up, idMarker);
      }
      assert sorted[from - 1] in sorted;
      assert sorted[from - 1] == InfoOf(up, idMarker);
      forall e | e in r
        ensures e != InfoOf(up, idMarker) && up[idMarker].ctime <= e.initiated
      {
        var j :| 0 <= j < |r| && r[j] == e;
        assert e == sorted[from + j];
      }
    }
  }

  /** Sorting the per-upload entries keeps them free of repetitions. */
  lemma SortedDistinct(up: Registry, order: seq<string>, sorted: seq<UploadInfo>)
    requires IsEnumeration(up, order)
    requires multiset(sorted) == multiset(Infos(up, order))
    ensures Distinct(sorted)
  {
    var infos := Infos(up, order);
    assert Distinct(infos) by {
      forall i, j | 0 <= i < j < |infos| ensures infos[i] != infos[j] {
        assert infos[i].uploadId == order[i];
      }
    }
    DistinctPermutation(infos, sorted);
  }

  /** A cut suffix of a sorted listing of live uploads is again such a listing. */
  lemma ListingFacts(up: Registry, sorted: seq<UploadInfo>, from: nat, maxUploads: int)
    requires from <= |sorted| && SortedByInitiated(sorted)
    requires forall e :: e in sorted ==> e.uploadId in up && e == InfoOf(up, e.uploadId)
    ensures var r := Truncate(sorted[from..], maxUploads);
      SortedByInitiated(r) && forall e :: e in r ==> e.uploadId in up && e == InfoOf(up, e.uploadId)
  {
    var r := Truncate(sorted[from..], maxUploads);
    SortedSuffix(sorted, from);
    assert forall i :: 0 <= i < |r| ==> r[i] == sorted[from..][i];
  }

  /** A suffix of a sorted listing is sorted; used by `ListingFacts` for the part after the marker. */
  lemma SortedSuffix(s: seq<UploadInfo>, from: nat)
    requires SortedByInitiated(s) && from <= |s|
    ensures SortedByInitiated(s[from..])
  {
    assert forall i, j :: 0 <= i < j < |s| - from ==> s[from..][i] == s[from + i] && s[from..][j] == s[from + j];
  }

  /** The sorted listing holds exactly one entry per upload. */
  lemma ListUploadsFacts(up: Registry, order: seq<string>, sorted: seq<UploadInfo>)
    requires IsEnumeration(up, order)
    requires multiset(sorted) == multiset(Infos(up, order))
    ensures forall e :: e in sorted ==> e.uploadId in up && e == InfoOf(up, e.uploadId)
    ensures forall id :: id in up ==> InfoOf(up, id) in sorted
    ensures |sorted| == |up|
  {
    var infos := Infos(up, order);
    forall e | e in sorted
      ensures e.uploadId in up && e == InfoOf(up, e.uploadId)
    {
      assert e in multiset(infos);
      var i :| 0 <= i < |infos| && infos[i] == e;
    }
    forall id | id in up
      ensures InfoOf(up, id) in sorted
    {
      var i :| 0 <= i < |order| && order[i] == id;
      assert infos[i] in multiset(sorted);
    }
    assert |sorted| == |multiset(sorted)| == |infos|;
    EnumerationSize(up, order);
  }

  lemma EnumerationSize(up: Registry, order: seq<string>)
    requires IsEnumeration(up, order)
    ensures |order| == |up|
  {
    var s := set k | k in order;
    assert s == up.Keys;
    DistinctSeqSize(order);
  }

  lemma {:induction false} DistinctSeqSize(order: seq<string>)
    requires forall i, j :: 0 <= i < j < |order| ==> order[i] != order[j]
    ensures |set k | k in order| == |order|
  {
    if |order| > 0 {
      DistinctSeqSize(order[1..]);
      assert (set k | k in order) == (set k | k in order[1..]) + {order[0]};
      assert order[0] !in order[1..];
    }
  }

  /** `ListUploads` as written: the loop meant to drop the entries up to the marker
      copies `results[from:]` only while `from` is still 0, so it drops nothing;
      only the truncation flag and the cut to `maxUploads` take effect. */
  function ListUploadsAsWritten(up: Registry, order: seq<string>, bckName: string, idMarker: string, maxUploads: int)
    : ListResult
    requires IsEnumeration(up, order)
  {
    var sorted := SortByInitiated(Infos(up, order));
    var from := if idMarker != "" then MarkerEnd(sorted, idMarker) else 0;
    ListResult(bckName, Truncate(sorted, maxUploads), from > 0)
  }

  /** As written, a listing that resumes after the marker still starts with the
      marker itself. */
  lemma ListUploadsAsWrittenDiffers(id1: string, id2: string)
    requires id1 != id2 && id1 != ""
    ensures var up := map[id1 := Upload("b", "o1", [], 1), id2 := Upload("b", "o2", [], 2)];
      && ListUploadsAsWritten(up, [id1, id2], "b", id1, 0).uploads ==
           [UploadInfo("o1", id1, 1), UploadInfo("o2", id2, 2)]
      && ListUploads(up, [id1, id2], "b", id1, 0).uploads == [UploadInfo("o2", id2, 2)]
  {
    var up := map[id1 := Upload("b", "o1", [], 1), id2 := Upload("b", "o2", [], 2)];
    var i1, i2 := UploadInfo("o1", id1, 1), UploadInfo("o2", id2, 2);
    assert Infos(up, [id1, id2]) == [i1, i2];
    assert Insert(i2, []) == [i2];
    assert SortByInitiated([i2]) == [i2];
    assert SortByInitiated([i1, i2]) == Insert(i1, [i2]) == [i1, i2];
    assert MarkerEnd([i1, i2], id1) == 1;
  }
}
