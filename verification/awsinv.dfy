/** The pure decisions of the S3 bucket-inventory backend (`ais/backend/awsinv.go`):
    how far apart two timestamps are, when a cached inventory is still usable, which
    manifest schemas are accepted, which listed `.csv.gz` is the inventory, which
    older objects are cleaned up, and how one page of a listing is cut from the lines
    of the inventory CSV. S3 calls, gzip, files and buffers are left to the caller:
    their results come in as sequences and parameters.
 */
module AwsInv {
  import opened Wrappers
  import Strings

  const MinDuration: int := -0x8000_0000_0000_0000
  const MaxDuration: int := 0x7fff_ffff_ffff_ffff
  const Second: int := 1_000_000_000
  const Hour: int := 3600 * Second

  /** A `time.Time` as nanoseconds; 0 plays the role of the zero time. */
  type Time = nat

  function Abs(x: int): nat {
    if x < 0 then -x else x
  }

  /** `t1.Sub(t2)`: the difference, saturated to the `time.Duration` range. */
  function Sub(t1: Time, t2: Time): (d: int)
    ensures MinDuration <= d <= MaxDuration
    ensures MinDuration <= t1 - t2 <= MaxDuration ==> d == t1 - t2
    ensures t1 - t2 > MaxDuration ==> d == MaxDuration
    ensures t1 - t2 < MinDuration ==> d == MinDuration
  {
    if t1 - t2 > MaxDuration then MaxDuration
    else if t1 - t2 < MinDuration then MinDuration
    else t1 - t2
  }

  /** `sinceInv`: the distance between two timestamps, whichever is later. It is
      symmetric, never negative, and saturates at the largest duration. */
  function SinceInv(t1: Time, t2: Time): (d: int)
    ensures 0 <= d
    ensures d == if Abs(t1 - t2) > MaxDuration then MaxDuration else Abs(t1 - t2)
  {
    if t1 > t2 then Sub(t1, t2) else Sub(t2, t1)
  }

  /** What `os.Stat` reports about the cached inventory file. */
  datatype FileInfo = FileInfo(mtime: Time, size: int)

  /** `_usableInv`: the cached copy (`None` when it does not exist) is kept when its
      mtime is within four seconds of the newest inventory; then its size is recorded. */
  function UsableInv(latest: Time, stat: Option<FileInfo>, ctxSize: int): (r: (bool, int))
    ensures r.0 <==> stat.Some? && latest - 4 * Second < stat.value.mtime < latest + 4 * Second
    ensures r.1 == if r.0 then stat.value.size else ctxSize
  {
    match stat
    case None => (false, ctxSize)
    case Some(fi) =>
      if SinceInv(fi.mtime, latest) < 4 * Second then (true, fi.size) else (false, ctxSize)
  }

  /* ---------------- manifest schema ---------------- */

  datatype SchemaError = NoSchema | InvalidSchema(fileSchema: string) | UnexpectedSchema(fileSchema: string)

  /** The validation at the end of `getManifest`: the `fileSchema` value of the
      manifest is split at ", " and must begin with the fields `Bucket` and `Key`.
      Equivalently, it is "Bucket, Key" or begins with "Bucket, Key, ". */
  function ValidateSchema(fileSchema: string): (r: Result<seq<string>, SchemaError>)
    ensures fileSchema == "" ==> r == Err(NoSchema)
    ensures r.Ok? <==> fileSchema == "Bucket, Key" || "Bucket, Key, " <= fileSchema
    ensures r.Ok? ==> |r.value| >= 2 && r.value[0] == "Bucket" && r.value[1] == "Key"
    ensures r.Ok? ==> Strings.Join(r.value, ", ") == fileSchema
  {
    if fileSchema == "" then Err(NoSchema)
    else
      var schema := Strings.Split(fileSchema, ", ");
      SchemaShape(fileSchema);
      Strings.SplitJoinsBack(fileSchema, ", ");
      if |schema| < 2 then Err(InvalidSchema(fileSchema))
      else if schema[0] != "Bucket" || schema[1] != "Key" then Err(UnexpectedSchema(fileSchema))
      else Ok(schema)
  }

  /** For a head `p` free of ", " that does not end in ',', the first piece of the
      split is `p` and more pieces follow exactly when the string begins with `p, `. */
  lemma SplitHead(s: string, p: string)
    requires Strings.Free(p, ", ") && (|p| == 0 || p[|p| - 1] != ',')
    ensures var parts := Strings.Split(s, ", ");
      (|parts| >= 2 && parts[0] == p) <==> p + ", " <= s
    ensures p + ", " <= s ==> Strings.Split(s, ", ") == [p] + Strings.Split(s[|p| + 2..], ", ")
    ensures var parts := Strings.Split(s, ", ");
      (|parts| == 1 && parts[0] == p) <==> s == p
  {
    var i := Strings.Find(s, ", ");
    if p + ", " <= s {
      FindAfterHead(s, p);
      assert s[..|p|] == p;
    }
    if i >= 0 && s[..i] == p {
      assert Strings.OccursAt(s, ", ", i);
      assert s[..|p| + 2] == p + ", ";
    }
  }

  /** When `s` begins with such a head and ", ", the first ", " is the one after
      the head. */
  lemma FindAfterHead(s: string, p: string)
    requires Strings.Free(p, ", ") && (|p| == 0 || p[|p| - 1] != ',')
    requires p + ", " <= s
    ensures Strings.Find(s, ", ") == |p|
  {
    var sep := ", ";
    assert Strings.OccursAt(s, sep, |p|) by { assert s[|p|..|p| + 2] == sep; }
    forall j | 0 <= j < |p|
      ensures !Strings.OccursAt(s, sep, j)
    {
      if j + 2 <= |p| {
        assert s[j..j + 2] == p[j..j + 2];
        assert !Strings.OccursAt(p, sep, j);
      } else {
        assert s[j] == p[j] != ',';
        assert s[j..j + 2][0] == s[j];
      }
    }
  }

  lemma NoCommaFree(p: string)
    requires ',' !in p
    ensures Strings.Free(p, ", ")
  {
    forall j | 0 <= j <= |p|
      ensures !Strings.OccursAt(p, ", ", j)
    {
      if j + 2 <= |p| {
        assert p[j..j + 2][0] == p[j] && p[j] in p;
      }
    }
  }

  /** The shape of accepted schemas, through two applications of `SplitHead`. */
  lemma SchemaShape(fileSchema: string)
    ensures var parts := Strings.Split(fileSchema, ", ");
      (|parts| >= 2 && parts[0] == "Bucket" && parts[1] == "Key") <==>
        (fileSchema == "Bucket, Key" || "Bucket, Key, " <= fileSchema)
  {
    NoCommaFree("Bucket");
    SplitHead(fileSchema, "Bucket");
    if "Bucket, " <= fileSchema {
      SchemaAfterBucket(fileSchema);
    } else {
      PrefixTrans("Bucket, ", "Bucket, Key, ", fileSchema);
      assert "Bucket, " <= "Bucket, Key";
    }
  }

  lemma SchemaAfterBucket(fileSchema: string)
    requires "Bucket, " <= fileSchema
    requires Strings.Split(fileSchema, ", ") == ["Bucket"] + Strings.Split(fileSchema[8..], ", ")
    ensures var parts := Strings.Split(fileSchema, ", ");
      (|parts| >= 2 && parts[0] == "Bucket" && parts[1] == "Key") <==>
        (fileSchema == "Bucket, Key" || "Bucket, Key, " <= fileSchema)
  {
    var rest := fileSchema[8..];
    KeyHead(rest);
    SchemaText(fileSchema);
  }

  /** Prefixes compose; a step of `SchemaShape`. */
  lemma PrefixTrans(a: string, b: string, c: string)
    requires a <= b
    ensures b <= c ==> a <= c
  {
    if b <= c {
      assert c[..|a|] == b[..|a|];
    }
  }

  /** The piece after "Bucket" is "Key". */
  lemma KeyHead(rest: string)
    ensures Strings.Split(rest, ", ")[0] == "Key" <==> rest == "Key" || "Key, " <= rest
  {
    NoCommaFree("Key");
    SplitHead(rest, "Key");
  }

  /** The schema text after `Bucket, ` is `Key` or starts with `Key, ` exactly when the whole text is accepted; a step of `SchemaAfterBucket`. */
  lemma SchemaText(fileSchema: string)
    requires "Bucket, " <= fileSchema
    ensures var rest := fileSchema[8..];
      (fileSchema == "Bucket, Key" <==> rest == "Key") &&
      ("Bucket, Key, " <= fileSchema <==> "Key, " <= rest)
  {
    var rest := fileSchema[8..];
    assert fileSchema == "Bucket, " + rest;
    assert "Bucket, Key, " == "Bucket, " + "Key, ";
    assert "Bucket, Key" == "Bucket, " + "Key";
  }

  /* ---------------- choosing the inventory ---------------- */

  /** One entry of the S3 listing: key and last-modified time. */
  datatype ObjInfo = ObjInfo(name: string, mtime: Time)

  /** `invT`: the object chosen so far (empty name: none). */
  datatype Inv = Inv(oname: string, mtime: Time)

  /** Among the first `n` listed objects, `c` is the one the newest-wins scan keeps:
      it is selected, none selected is newer, and ties go to the first when the time is
      non-zero (`After` is strict) but to the last when it is zero (`IsZero` always
      replaces). */
  predicate ChosenUpTo(objs: seq<ObjInfo>, sel: string -> bool, c: int, n: int)
    requires 0 <= n <= |objs|
  {
    0 <= c < n && sel(objs[c].name) &&
    (forall k :: 0 <= k < n && sel(objs[k].name) ==> objs[k].mtime <= objs[c].mtime) &&
    (objs[c].mtime > 0 ==> forall k :: 0 <= k < c && sel(objs[k].name) ==> objs[k].mtime < objs[c].mtime) &&
    (objs[c].mtime == 0 ==> forall k :: c < k < n ==> !sel(objs[k].name))
  }

  /** The scan of step 1 of `getInventory`: the newest listed object passing `sel`
      (for the inventory: extension `.csv.gz`; for the manifest: base name
      `manifest.json`). S3 keys are never empty. */
  method Newest(objs: seq<ObjInfo>, sel: string -> bool) returns (inv: Inv)
    requires forall k :: 0 <= k < |objs| ==> objs[k].name != ""
    ensures inv.oname == "" <==> forall k :: 0 <= k < |objs| ==> !sel(objs[k].name)
    ensures inv.oname == "" ==> inv.mtime == 0
    ensures inv.oname != "" ==>
      exists c :: ChosenUpTo(objs, sel, c, |objs|) && inv == Inv(objs[c].name, objs[c].mtime)
  {
    inv := Inv("", 0);
    ghost var c := -1;
    var i := 0;
    while i < |objs|
      invariant 0 <= i <= |objs|
      invariant c == -1 ==> inv == Inv("", 0) && forall k :: 0 <= k < i ==> !sel(objs[k].name)
      invariant c != -1 ==> ChosenUpTo(objs, sel, c, i) && inv == Inv(objs[c].name, objs[c].mtime)
    {
      var o := objs[i];
      if sel(o.name) && (inv.mtime == 0 || o.mtime > inv.mtime) {
        inv := Inv(o.name, o.mtime);
        c := i;
      }
      i := i + 1;
    }
  }

  /** Step 3 of `getInventory`: the listed objects that are deleted, in listing
      order. The chosen inventory is never among them, nor anything less than 23 hours
      older than it; everything else is. */
  function CleanupVictims(objs: seq<ObjInfo>, csv: Inv): (r: seq<string>)
    ensures forall n :: n in r ==> (n != csv.oname &&
      exists k :: 0 <= k < |objs| && objs[k].name == n && csv.mtime - objs[k].mtime >= 23 * Hour)
    ensures forall k :: 0 <= k < |objs| && objs[k].name != csv.oname && csv.mtime - objs[k].mtime >= 23 * Hour ==>
      objs[k].name in r
  {
    if |objs| == 0 then []
    else
      var o := objs[|objs| - 1];
      var init := CleanupVictims(objs[..|objs| - 1], csv);
      if o.name == csv.oname || Sub(csv.mtime, o.mtime) < 23 * Hour then init else init + [o.name]
  }

  /** The selector of the inventory object, given `cos.Ext`. */
  function IsCsvGz(ext: string -> string): string -> bool {
    (n: string) => ext(n) == ".csv.gz"
  }

  datatype InvError = NotFound(what: string) | BadSchema(err: SchemaError)

  /** What `getInventory` decides once it has the listing: keep the cached copy, or
      fetch the chosen inventory after deleting the victims. */
  datatype InvPlan =
    | UseCached(schema: seq<string>, csv: Inv, size: int)
    | Refresh(schema: seq<string>, csv: Inv, victims: seq<string>)

  /** `getInventory` up to the download: choose the newest `.csv.gz` (none listed:
      not found), validate the schema read from the newest manifest, then keep the
      cached copy if usable or plan a refresh. `ext` stands for `cos.Ext`; the manifest (the newest object `Newest` finds with base name `manifest.json`)
      is read by the caller, and `fileSchema` is the value it holds. */
  method GetInventory(objs: seq<ObjInfo>, ext: string -> string,
                      prefix: string, ctxId: string, ctxName: string,
                      fileSchema: string, stat: Option<FileInfo>, ctxSize: int)
    returns (r: Result<InvPlan, InvError>)
    requires forall k :: 0 <= k < |objs| ==> objs[k].name != ""
    ensures (r.Err? && r.error.NotFound?) <==> forall k :: 0 <= k < |objs| ==> ext(objs[k].name) != ".csv.gz"
    ensures r.Err? && r.error.NotFound? ==>
      r.error.what == if ctxId != "" then prefix else if ctxName != "" then ctxName else ".inventory"
    ensures r.Ok? ==> ValidateSchema(fileSchema) == Ok(r.value.schema)
    ensures r.Ok? ==> exists c :: (ChosenUpTo(objs, IsCsvGz(ext), c, |objs|) &&
      r.value.csv == Inv(objs[c].name, objs[c].mtime))
    ensures r.Ok? ==> (r.value.UseCached? <==> UsableInv(r.value.csv.mtime, stat, ctxSize).0)
    ensures r.Ok? && r.value.Refresh? ==> r.value.csv.oname !in r.value.victims
    ensures (exists k :: 0 <= k < |objs| && ext(objs[k].name) == ".csv.gz") && ValidateSchema(fileSchema).Ok? ==> r.Ok?
    ensures r.Err? && !r.error.NotFound? ==> ValidateSchema(fileSchema).Err? && r.error == BadSchema(ValidateSchema(fileSchema).error)
    ensures r.Ok? && r.value.UseCached? ==> r.value.size == UsableInv(r.value.csv.mtime, stat, ctxSize).1
    ensures r.Ok? && r.value.Refresh? ==> r.value.victims == CleanupVictims(objs, r.value.csv)
  {
    var csv := Newest(objs, IsCsvGz(ext));
    if csv.oname == "" {
      var what := if ctxId != "" then prefix else if ctxName != "" then ctxName else ".inventory";
      return Err(NotFound(what));
    }
    var schema := ValidateSchema(fileSchema);
    if schema.Err? {
      return Err(BadSchema(schema.error));
    }
    var usable := UsableInv(csv.mtime, stat, ctxSize);
    if usable.0 {
      return Ok(UseCached(schema.value, csv, usable.1));
    }
    return Ok(Refresh(schema.value, csv, CleanupVictims(objs, csv)));
  }

  /* ---------------- one page of the listing ---------------- */

  /** The inventory CSV as the listing sees it: its lines from the saved offset on,
      the validated schema, and `cmn.UnquoteCEV`. */
  datatype Listing = Listing(lines: seq<string>, schema: seq<string>, unquote: string -> string)

  /** The parts of the list request the loop reads; the page size is already
      normalised by the caller. */
  datatype LsoMsg = LsoMsg(prefix: string, token: string, pageSize: nat)

  /** One listed entry; `size` is absent when the schema has no `Size` column. */
  datatype Entry = Entry(name: string, size: Option<int>)

  /** The page: entries, the continuation token when the page filled up before the
      data ran out, the line the next page starts at, and whether the data ran out
      (the function then returns `io.EOF`). */
  datatype Page = Page(entries: seq<Entry>, token: Option<string>, nextLine: nat, eof: bool)

  function Fields(line: string): seq<string> {
    Strings.Split(line, ",")
  }

  /** Every line has the key column and one column per schema field. */
  predicate WellFormed(L: Listing) {
    forall k :: 0 <= k < |L.lines| ==> |Fields(L.lines[k])| >= 2 && |Fields(L.lines[k])| >= |L.schema|
  }

  /** The object name of line `k`. */
  function NameAt(L: Listing, k: nat): string
    requires WellFormed(L) && k < |L.lines|
  {
    L.unquote(Fields(L.lines[k])[1])
  }

  /** The parse of field `i` as a `Size` value. */
  function ParseField(fields: seq<string>, L: Listing, i: nat): Result<int, Strings.NumError>
    requires i < |fields|
  {
    Strings.ParseInt(L.unquote(fields[i]), Strings.Bits64)
  }

  /** Column `i` is a `Size` column whose field does not parse. */
  predicate BadSize(fields: seq<string>, L: Listing, i: nat)
    requires |fields| >= |L.schema| && i < |L.schema|
  {
    L.schema[i] == "Size" && ParseField(fields, L, i).Err?
  }

  /** Column `i`, at or after `j`, is the first `Size` column that fails to parse. */
  predicate FirstBadSize(fields: seq<string>, L: Listing, j: nat, i: int)
    requires |fields| >= |L.schema|
  {
    j <= i < |L.schema| && BadSize(fields, L, i) && forall i' :: j <= i' < i ==> !BadSize(fields, L, i')
  }

  /** Column `i`, at or after `j`, is the last `Size` column of the schema. */
  predicate LastSizeColumn(L: Listing, j: nat, i: int) {
    j <= i < |L.schema| && L.schema[i] == "Size" &&
    forall i' :: i < i' < |L.schema| ==> L.schema[i'] != "Size"
  }

  /** The `Size` columns of a line from column `j` on, parsed as signed 64-bit
      decimals: the first that fails to parse is the error; otherwise the last one
      counts, and `acc` stands when there is none. */
  function SizeFrom(fields: seq<string>, L: Listing, j: nat, acc: Option<int>): (r: Result<Option<int>, Strings.NumError>)
    requires |fields| >= |L.schema|
    ensures r.Ok? && r.value.Some? ==> Strings.MinInt(Strings.Bits64) <= r.value.value <= Strings.MaxInt(Strings.Bits64) || r.value == acc
    decreases |L.schema| - j
  {
    if j >= |L.schema| then Ok(acc)
    else if L.schema[j] == "Size" then
      match Strings.ParseInt(L.unquote(fields[j]), Strings.Bits64)
      case Err(e) => Err(e)
      case Ok(v) =>
        Strings.ParseIntAccepts(L.unquote(fields[j]), Strings.Bits64);
        SizeFrom(fields, L, j + 1, Some(v))
    else SizeFrom(fields, L, j + 1, acc)
  }

  /** The size of a line fails exactly when some `Size` column from `j` on fails to
      parse, and then with the first such column's error. */
  lemma {:induction false} SizeFromFails(fields: seq<string>, L: Listing, j: nat, acc: Option<int>)
    requires |fields| >= |L.schema|
    ensures SizeFrom(fields, L, j, acc).Err? <==> exists i :: j <= i < |L.schema| && BadSize(fields, L, i)
    ensures SizeFrom(fields, L, j, acc).Err? ==>
      exists i :: FirstBadSize(fields, L, j, i) && SizeFrom(fields, L, j, acc).error == ParseField(fields, L, i).error
    decreases |L.schema| - j
  {
    if j < |L.schema| {
      var r := SizeFrom(fields, L, j, acc);
      if BadSize(fields, L, j) {
        assert FirstBadSize(fields, L, j, j);
      } else {
        var next := if L.schema[j] == "Size" then Some(ParseField(fields, L, j).value) else acc;
        assert r == SizeFrom(fields, L, j + 1, next);
        SizeFromFails(fields, L, j + 1, next);
        if r.Err? {
          var i :| FirstBadSize(fields, L, j + 1, i) && r.error == ParseField(fields, L, i).error;
          assert FirstBadSize(fields, L, j, i);
        }
      }
    }
  }

  /** Without failure the last `Size` column from `j` on counts, with the signed value
      of its field, and `acc` stands when there is none. */
  lemma {:induction false} SizeFromValue(fields: seq<string>, L: Listing, j: nat, acc: Option<int>)
    requires |fields| >= |L.schema|
    ensures SizeFrom(fields, L, j, acc).Ok? && (forall i :: j <= i < |L.schema| ==> L.schema[i] != "Size") ==>
      SizeFrom(fields, L, j, acc).value == acc
    ensures SizeFrom(fields, L, j, acc).Ok? ==> forall i :: LastSizeColumn(L, j, i) ==>
      Strings.IsDecimal(L.unquote(fields[i])) &&
      SizeFrom(fields, L, j, acc).value == Some(Strings.SignedValue(L.unquote(fields[i])))
    decreases |L.schema| - j
  {
    if j < |L.schema| {
      var r := SizeFrom(fields, L, j, acc);
      var p := ParseField(fields, L, j);
      if L.schema[j] != "Size" {
        assert r == SizeFrom(fields, L, j + 1, acc);
        SizeFromValue(fields, L, j + 1, acc);
      } else if p.Ok? {
        Strings.ParseIntAccepts(L.unquote(fields[j]), Strings.Bits64);
        assert r == SizeFrom(fields, L, j + 1, Some(p.value));
        SizeFromValue(fields, L, j + 1, Some(p.value));
      }
    }
  }

  /** The size of line `k`, read from the columns after the key; `SizeFromFails` and
      `SizeFromValue` say what it is. */
  function SizeAt(L: Listing, k: nat): Result<Option<int>, Strings.NumError>
    requires WellFormed(L) && k < |L.lines|
  {
    SizeFrom(Fields(L.lines[k]), L, 2, None)
  }

  /** Some line before `n` has the prefix and names the continuation token. */
  function TokenSeen(L: Listing, m: LsoMsg, n: nat): bool
    requires WellFormed(L) && n <= |L.lines|
  {
    n > 0 && (TokenSeen(L, m, n - 1) || (m.prefix <= NameAt(L, n - 1) && NameAt(L, n - 1) == m.token))
  }

  /** Line `k` belongs to the listing: its name has the prefix, and there is no token
      or the token has been reached (at `k` or before). */
  predicate IsVisible(L: Listing, m: LsoMsg, k: nat)
    requires WellFormed(L) && k < |L.lines|
  {
    m.prefix <= NameAt(L, k) && (m.token == "" || TokenSeen(L, m, k + 1))
  }

  /** The visible lines among the first `n`, in order: the reference listing that
      pages are cut from. */
  function Visible(L: Listing, m: LsoMsg, n: nat): (V: seq<nat>)
    requires WellFormed(L) && n <= |L.lines|
    ensures forall i :: 0 <= i < |V| ==> V[i] < n
    ensures forall i, j :: 0 <= i < j < |V| ==> V[i] < V[j]
  {
    if n == 0 then []
    else Visible(L, m, n - 1) + (if IsVisible(L, m, n - 1) then [n - 1] else [])
  }

  lemma {:induction false} VisiblePrefix(L: Listing, m: LsoMsg, a: nat, b: nat)
    requires WellFormed(L) && a <= b <= |L.lines|
    ensures Visible(L, m, a) <= Visible(L, m, b)
    decreases b - a
  {
    if a < b {
      VisiblePrefix(L, m, a, b - 1);
      var u := Visible(L, m, b - 1);
      assert Visible(L, m, b)[..|u|] == u;
      assert Visible(L, m, a) == u[..|Visible(L, m, a)|];
    }
  }

  /** A visible line `n` is the entry that follows the first `n` lines' listing. */
  lemma VisibleExtends(L: Listing, m: LsoMsg, n: nat)
    requires WellFormed(L) && n < |L.lines| && IsVisible(L, m, n)
    ensures var V := Visible(L, m, |L.lines|); var W := Visible(L, m, n);
      |W| < |V| && V[|W|] == n && V[..|W|] == W && Visible(L, m, n + 1) == W + [n]
  {
    VisiblePrefix(L, m, n + 1, |L.lines|);
  }

  /** `TokenSeen` is "some earlier matching line names the token". */
  lemma {:induction false} TokenSeenSpec(L: Listing, m: LsoMsg, n: nat)
    requires WellFormed(L) && n <= |L.lines|
    ensures TokenSeen(L, m, n) <==>
      exists j :: 0 <= j < n && m.prefix <= NameAt(L, j) && NameAt(L, j) == m.token
  {
    if n > 0 {
      TokenSeenSpec(L, m, n - 1);
    }
  }

  /** The reference listing holds exactly the visible lines. */
  lemma {:induction false} VisibleMembers(L: Listing, m: LsoMsg, n: nat)
    requires WellFormed(L) && n <= |L.lines|
    ensures forall k: nat :: k in Visible(L, m, n) <==> k < n && IsVisible(L, m, k)
  {
    if n > 0 {
      VisibleMembers(L, m, n - 1);
    }
  }

  /** Names on the listing have the requested prefix; without a continuation token it
      holds every line that has the prefix. */
  lemma ListingPrefix(L: Listing, m: LsoMsg)
    requires WellFormed(L)
    ensures var V := Visible(L, m, |L.lines|);
      forall i :: 0 <= i < |V| ==> m.prefix <= NameAt(L, V[i])
    ensures m.token == "" ==>
      forall k :: 0 <= k < |L.lines| ==> (k in Visible(L, m, |L.lines|) <==> m.prefix <= NameAt(L, k))
  {
    var V := Visible(L, m, |L.lines|);
    VisibleMembers(L, m, |L.lines|);
    forall i | 0 <= i < |V|
      ensures m.prefix <= NameAt(L, V[i])
    {
      assert V[i] in V;
    }
  }

  /** With a continuation token the listing starts at the first line (with the prefix)
      that names the token: that entry is emitted, everything before it is skipped. */
  lemma ListingStartsAtToken(L: Listing, m: LsoMsg)
    requires WellFormed(L)
    requires m.token != ""
    ensures var V := Visible(L, m, |L.lines|);
      |V| > 0 ==> (NameAt(L, V[0]) == m.token &&
        forall k :: 0 <= k < V[0] ==> !(m.prefix <= NameAt(L, k) && NameAt(L, k) == m.token))
  {
    var V := Visible(L, m, |L.lines|);
    if |V| > 0 {
      NoTokenBeforeFirst(L, m, V);
      FirstNamesToken(L, m, V);
    }
  }

  lemma NoTokenBeforeFirst(L: Listing, m: LsoMsg, V: seq<nat>)
    requires WellFormed(L) && m.token != "" && V == Visible(L, m, |L.lines|) && |V| > 0
    ensures forall k :: 0 <= k < V[0] ==> !(m.prefix <= NameAt(L, k) && NameAt(L, k) == m.token)
  {
    forall k | 0 <= k < V[0] && m.prefix <= NameAt(L, k)
      ensures NameAt(L, k) != m.token
    {
      NotVisibleBeforeFirst(L, m, V, k);
      TokenSeenSpec(L, m, k + 1);
    }
  }

  lemma FirstNamesToken(L: Listing, m: LsoMsg, V: seq<nat>)
    requires WellFormed(L) && m.token != "" && V == Visible(L, m, |L.lines|) && |V| > 0
    requires forall k :: 0 <= k < V[0] ==> !(m.prefix <= NameAt(L, k) && NameAt(L, k) == m.token)
    ensures NameAt(L, V[0]) == m.token
  {
    var k := V[0];
    VisibleMembers(L, m, |L.lines|);
    assert k in V;
    TokenSeenSpec(L, m, k + 1);
    var j :| 0 <= j < k + 1 && m.prefix <= NameAt(L, j) && NameAt(L, j) == m.token;
  }

  /** A line before the first listable one is not listable; the step of `NoTokenBeforeFirst`. */
  lemma NotVisibleBeforeFirst(L: Listing, m: LsoMsg, V: seq<nat>, k: nat)
    requires WellFormed(L) && V == Visible(L, m, |L.lines|) && |V| > 0 && k < V[0]
    ensures !IsVisible(L, m, k)
  {
    VisibleMembers(L, m, |L.lines|);
  }

  /** The entries match the reference listing of the first `n` lines: one per visible
      line, with its name and successfully parsed size. */
  predicate EntriesMatch(L: Listing, m: LsoMsg, n: nat, entries: seq<Entry>)
    requires WellFormed(L) && n <= |L.lines|
  {
    var W := Visible(L, m, n);
    |entries| == |W| &&
    forall j :: 0 <= j < |entries| ==>
      SizeAt(L, W[j]).Ok? && entries[j] == Entry(NameAt(L, W[j]), SizeAt(L, W[j]).value)
  }

  /** What one call of `listInventory` returns, in terms of the reference listing `V`:
      an error exactly when one of the first `pageSize` entries has a size that does
      not parse; otherwise the first `pageSize` entries, a continuation token (the
      next entry's name, and the line it starts at) when more entries follow, and the
      end of the data otherwise. */
  predicate PageSpec(L: Listing, m: LsoMsg, r: Result<Page, Strings.NumError>)
    requires WellFormed(L)
  {
    var V := Visible(L, m, |L.lines|);
    (r.Err? <==> exists j :: 0 <= j < |V| && j < m.pageSize && SizeAt(L, V[j]).Err?) &&
    (r.Ok? ==>
      |r.value.entries| == (if |V| < m.pageSize then |V| else m.pageSize) &&
      (forall j :: 0 <= j < |r.value.entries| ==>
        r.value.entries[j] == Entry(NameAt(L, V[j]), SizeAt(L, V[j]).value)) &&
      (r.value.eof <==> |V| <= m.pageSize) &&
      (r.value.token.Some? <==> |V| > m.pageSize) &&
      (|V| > m.pageSize ==> r.value.token == Some(NameAt(L, V[m.pageSize])) && r.value.nextLine == V[m.pageSize]) &&
      (r.value.eof ==> r.value.nextLine == |L.lines|))
  }

  /** The page filled up and visible line `n` is the next entry. */
  lemma PageFull(L: Listing, m: LsoMsg, n: nat, entries: seq<Entry>)
    requires WellFormed(L) && n < |L.lines| && IsVisible(L, m, n)
    requires EntriesMatch(L, m, n, entries) && |entries| == m.pageSize
    ensures PageSpec(L, m, Ok(Page(entries, Some(NameAt(L, n)), n, false)))
  {
    VisibleExtends(L, m, n);
  }

  /** The size of visible line `n` does not parse before the page filled up. */
  lemma PageError(L: Listing, m: LsoMsg, n: nat, entries: seq<Entry>, e: Strings.NumError)
    requires WellFormed(L) && n < |L.lines| && IsVisible(L, m, n)
    requires EntriesMatch(L, m, n, entries) && |entries| < m.pageSize && SizeAt(L, n) == Err(e)
    ensures PageSpec(L, m, Err(e))
  {
    VisibleExtends(L, m, n);
  }

  /** The data ran out before the page filled up. */
  lemma PageEnd(L: Listing, m: LsoMsg, entries: seq<Entry>)
    requires WellFormed(L)
    requires EntriesMatch(L, m, |L.lines|, entries) && |entries| <= m.pageSize
    ensures PageSpec(L, m, Ok(Page(entries, None, |L.lines|, true)))
  {
  }

  /** Visible line `n` extends the matched entries by its own entry. */
  lemma MatchExtends(L: Listing, m: LsoMsg, n: nat, entries: seq<Entry>, size: Option<int>)
    requires WellFormed(L) && n < |L.lines| && IsVisible(L, m, n)
    requires EntriesMatch(L, m, n, entries) && SizeAt(L, n) == Ok(size)
    ensures EntriesMatch(L, m, n + 1, entries + [Entry(NameAt(L, n), size)])
  {
    VisibleExtends(L, m, n);
  }

  /** The line loop of `listInventory`: read names, drop those without the prefix,
      skip up to the continuation token, stop with a new token once the page is full,
      and parse the `Size` column of each emitted entry. The page is the reference
      listing cut to the page size; a size that fails to parse ends the call with that
      error. */
  method ListInventory(L: Listing, m: LsoMsg) returns (r: Result<Page, Strings.NumError>)
    requires WellFormed(L)
    ensures PageSpec(L, m, r)
  {
    var entries: seq<Entry> := [];
    var skip := m.token != "";
    var n := 0;
    while n < |L.lines|
      invariant 0 <= n <= |L.lines|
      invariant skip <==> m.token != "" && !TokenSeen(L, m, n)
      invariant EntriesMatch(L, m, n, entries) && |entries| <= m.pageSize
    {
      var name := NameAt(L, n);
      if m.prefix <= name {
        if skip && name == m.token {
          skip := false;
        }
        if !skip {
          assert IsVisible(L, m, n);
          if |entries| >= m.pageSize {
            PageFull(L, m, n, entries);
            return Ok(Page(entries, Some(name), n, false));
          }
          var size := SizeAt(L, n);
          if size.Err? {
            PageError(L, m, n, entries, size.error);
            return Err(size.error);
          }
          MatchExtends(L, m, n, entries, size.value);
          entries := entries + [Entry(name, size.value)];
        } else {
          assert !IsVisible(L, m, n);
          assert Visible(L, m, n + 1) == Visible(L, m, n);
        }
      } else {
        assert Visible(L, m, n + 1) == Visible(L, m, n);
      }
      n := n + 1;
    }
    PageEnd(L, m, entries);
    return Ok(Page(entries, None, n, true));
  }
}
