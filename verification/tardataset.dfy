/** Tar-record assembly and operation handling of the TensorFlow loader
    (`tar2tf/tar2tf/ais_dataset.py`). The members of a tar shard are grouped into
    records keyed by member name without extension; a record maps each extension to the
    member's content and `__key__` to the key. Python's `os.path.splitext` and
    `os.path.basename` are written out; the tar reader is replaced by a sequence of
    members, and an operation's own `do` by a parameter. Raised exceptions are `Err`.
 */
module TarDataset {
  import opened Wrappers

  /** The exceptions the modelled code raises. */
  datatype Exc =
    | TypeError            // `str.startswith` called unbound in `is_valid_tar_entry`
    | UnknownOpType        // an operation whose type is not one of `OPS`
    | NestedOpList         // a list of operations holding another list
    | ExtNameRequired      // an operation inside a list without `ext_name`
    | NoAttributeExtName   // `ext_name` read from a list
    | OpFailed(msg: string)  // raised by an operation's `do`
    | InvalidArgument(name: string)

  /* ---------------- paths ---------------- */

  /** `str.rfind` for one character. */
  function LastIndex(s: string, c: char): (i: int)
    ensures -1 <= i < |s|
    ensures i >= 0 ==> s[i] == c
    ensures forall j :: i < j < |s| ==> s[j] != c
  {
    LastBefore(s, c, |s|)
  }

  /** The last position of `c` in `s[..n]`, scanning down from `n`. */
  function LastBefore(s: string, c: char, n: nat): (i: int)
    requires n <= |s|
    ensures -1 <= i < n
    ensures i >= 0 ==> s[i] == c
    ensures forall j :: i < j < n ==> s[j] != c
  {
    if n == 0 then -1
    else if s[n - 1] == c then n - 1
    else LastBefore(s, c, n - 1)
  }

  /** `os.path.basename`: what follows the last `/`. */
  function Basename(p: string): (b: string)
    ensures |b| <= |p| && b == p[|p| - |b|..]
    ensures forall j :: 0 <= j < |b| ==> b[j] != '/'
    ensures |b| < |p| ==> p[|p| - |b| - 1] == '/'
  {
    p[LastIndex(p, '/') + 1..]
  }

  /** The leading-dots loop of `splitext`: some character of `p[i..hi]` is not a dot. */
  function NonDotFrom(p: string, i: nat, hi: nat): bool
    requires i <= hi <= |p|
    decreases hi - i
  {
    i < hi && (p[i] != '.' || NonDotFrom(p, i + 1, hi))
  }

  lemma {:induction false} NonDotFromSpec(p: string, i: nat, hi: nat)
    requires i <= hi <= |p|
    ensures NonDotFrom(p, i, hi) <==> exists k :: i <= k < hi && p[k] != '.'
    decreases hi - i
  {
    if i < hi {
      NonDotFromSpec(p, i + 1, hi);
    }
  }

  /** `os.path.splitext` (POSIX): the extension runs from the last `.` of the final
      path element, provided that element has something other than dots before it. */
  function SplitExt(p: string): (r: (string, string))
    ensures r.0 + r.1 == p
    ensures r.1 == "" || r.1[0] == '.'
    ensures forall j :: 1 <= j < |r.1| ==> r.1[j] != '.' && r.1[j] != '/'
  {
    var sepIndex := LastIndex(p, '/');
    var dotIndex := LastIndex(p, '.');
    if dotIndex > sepIndex && NonDotFrom(p, sepIndex + 1, dotIndex) then
      (p[..dotIndex], p[dotIndex..])
    else (p, "")
  }

  /** A root whose final element is not all dots, and an extension without `.` or
      `/`, come back apart from `splitext`. */
  lemma SplitExtJoin(root: string, ext: string)
    requires forall j :: 0 <= j < |ext| ==> ext[j] != '.' && ext[j] != '/'
    requires exists k :: 0 <= k < |Basename(root)| && Basename(root)[k] != '.'
    ensures SplitExt(root + "." + ext) == (root, "." + ext)
  {
    var p := root + "." + ext;
    var d := |root|;
    AppendExtIndices(root, ext);
    var rs := LastIndex(root, '/');
    var b := Basename(root);
    assert b == root[rs + 1..];
    var k :| 0 <= k < |b| && b[k] != '.';
    assert p[rs + 1 + k] == b[k];
    NonDotFromSpec(p, rs + 1, d);
    assert p[..d] == root;
    assert p[d..] == "." + ext;
  }

  /** The characters of `ext` move neither the last `/` nor the appended `.`. */
  lemma AppendExtIndices(root: string, ext: string)
    requires forall j :: 0 <= j < |ext| ==> ext[j] != '.' && ext[j] != '/'
    ensures LastIndex(root + "." + ext, '.') == |root|
    ensures LastIndex(root + "." + ext, '/') == LastIndex(root, '/')
  {
    var p := root + "." + ext;
    var d := |root|;
    assert forall j :: d < j < |p| ==> p[j] == ext[j - d - 1];
    LastIndexUnique(p, '.', d);
    var rs := LastIndex(root, '/');
    assert forall j :: 0 <= j < d ==> p[j] == root[j];
    LastIndexUnique(p, '/', rs);
  }

  /** The three properties of `LastIndex` pin it down. */
  lemma LastIndexUnique(s: string, c: char, i: int)
    requires -1 <= i < |s| && (i >= 0 ==> s[i] == c)
    requires forall j :: i < j < |s| ==> s[j] != c
    ensures LastIndex(s, c) == i
  {
  }

  /* ---------------- tar records ---------------- */

  /** A tar member: its name, whether `extractfile` gives a file object (regular
      files do; directories do not), and its content. */
  datatype Member = Member(name: string, extractable: bool, data: seq<bv8>)

  /** What the loop derives from a member: the key and extension from `splitext`
      (without the extension's leading dot), and the base name of the key. */
  datatype Entry = Entry(key: string, ext: string, base: string, extractable: bool, data: seq<bv8>)

  function EntryOf(m: Member): Entry {
    var (key, ext) := SplitExt(m.name);
    Entry(key, if |ext| == 0 then ext else ext[1..], Basename(key), m.extractable, m.data)
  }

  function Entries(ms: seq<Member>): (es: seq<Entry>)
    ensures |es| == |ms|
  {
    seq(|ms|, i requires 0 <= i < |ms| => EntryOf(ms[i]))
  }

  /** The entry of member `i`; lets `TarRecords` hand its loop to `CollectEntries`. */
  lemma EntryAt(ms: seq<Member>, i: nat)
    requires i < |ms|
    ensures Entries(ms)[i] == EntryOf(ms[i])
  {
  }

  /** A record value: the `__key__` entry, or a member's content. */
  datatype Field = KeyName(key: string) | Content(data: seq<bv8>)

  type Record = map<string, Field>

  /** The records dictionary; `order` is its key insertion order, which is the order
      the loader later iterates in. */
  datatype Records = Records(order: seq<string>, recs: map<string, Record>)

  const KnownExts: seq<string> := ["jpg", "cls", "json", "png", "jpeg", "bmp"]

  /** `is_valid_tar_entry`. For an extension outside the list the guard goes on to
      call `str.startswith("lab")`, which raises `TypeError`; files written by macOS
      (base name starting with `._`) are dropped. */
  function IsValidTarEntry(key: string, ext: string): (r: Result<bool, Exc>)
    ensures r.Err? <==> ext !in KnownExts
    ensures r.Err? ==> r.error == TypeError
    ensures r == Ok(true) <==> ext in KnownExts && !("._" <= Basename(key))
  {
    CheckEntry(Basename(key), ext)
  }

  /** The same check, given the base name of the key. */
  function CheckEntry(base: string, ext: string): (r: Result<bool, Exc>)
    ensures r.Err? <==> ext !in KnownExts
    ensures r.Err? ==> r.error == TypeError
    ensures r == Ok(true) <==> ext in KnownExts && !("._" <= base)
  {
    if ext !in KnownExts then Err(TypeError)
    else if "._" <= base then Ok(false)
    else Ok(true)
  }

  /** The member ends up in a record. */
  predicate Kept(e: Entry) {
    e.extractable && e.ext in KnownExts && !("._" <= e.base)
  }

  /** Reading the member raises. */
  predicate Raises(e: Entry) {
    e.extractable && e.ext !in KnownExts
  }

  /** Some kept entry among the first `n` has key `k`. */
  function HasKey(es: seq<Entry>, n: nat, k: string): bool
    requires n <= |es|
  {
    n > 0 && (HasKey(es, n - 1, k) || (Kept(es[n - 1]) && es[n - 1].key == k))
  }

  /** The content of the last kept entry among the first `n` with key `k` and
      extension `x`. */
  function LastContent(es: seq<Entry>, n: nat, k: string, x: string): (r: Option<seq<bv8>>)
    requires n <= |es|
    ensures r.Some? ==> HasKey(es, n, k)
  {
    if n == 0 then None
    else
      var e := es[n - 1];
      if Kept(e) && e.key == k && e.ext == x then Some(e.data)
      else LastContent(es, n - 1, k, x)
  }

  /** Index of the first kept entry with key `k`, from `i` on; -1 when there is none. */
  function FirstFrom(es: seq<Entry>, k: string, i: nat): (r: int)
    requires i <= |es|
    ensures r == -1 || (i <= r < |es| && Kept(es[r]) && es[r].key == k)
    ensures forall j :: i <= j < |es| && (r == -1 || j < r) ==> !(Kept(es[j]) && es[j].key == k)
    decreases |es| - i
  {
    if i == |es| then -1
    else if Kept(es[i]) && es[i].key == k then i
    else FirstFrom(es, k, i + 1)
  }

  function FirstIndex(es: seq<Entry>, k: string): int {
    FirstFrom(es, k, 0)
  }

  lemma {:induction false} HasKeyFirst(es: seq<Entry>, n: nat, k: string)
    requires n <= |es|
    ensures HasKey(es, n, k) <==> 0 <= FirstIndex(es, k) < n
  {
    if n > 0 {
      HasKeyFirst(es, n - 1, k);
    }
  }

  /** The key order: no repetitions, exactly the keys of kept entries among the first
      `n`, and by first appearance. */
  ghost predicate OrderInv(es: seq<Entry>, n: nat, order: seq<string>)
    requires n <= |es|
  {
    (forall a, b :: 0 <= a < b < |order| ==> order[a] != order[b]) &&
    (forall k :: k in order <==> HasKey(es, n, k)) &&
    (forall a, b :: 0 <= a < b < |order| ==> FirstIndex(es, order[a]) < FirstIndex(es, order[b]))
  }

  /** The record contents after the first `n` entries: `__key__` holds the key, and
      each extension holds the last content seen for it. */
  ghost predicate ContentInv(es: seq<Entry>, n: nat, recs: map<string, Record>)
    requires n <= |es|
  {
    (forall k :: k in recs <==> HasKey(es, n, k)) &&
    (forall k :: k in recs ==> "__key__" in recs[k] && recs[k]["__key__"] == KeyName(k)) &&
    (forall k, x :: k in recs && x != "__key__" ==>
      (x in recs[k] <==> LastContent(es, n, k, x).Some?) &&
      (x in recs[k] ==> recs[k][x] == Content(LastContent(es, n, k, x).value)))
  }

  /** `tar_records`: one pass over the members. The first extractable member with an
      extension outside the list raises; otherwise every kept member lands in the
      record of its key, a later member overwriting an earlier one with the same
      extension, and members that are not regular files contribute nothing. */
  method TarRecords(ms: seq<Member>) returns (r: Result<Records, Exc>)
    ensures r.Err? <==> exists i :: 0 <= i < |ms| && Raises(EntryOf(ms[i]))
    ensures r.Err? ==> r.error == TypeError
    ensures r.Ok? ==> r.value == Build(Entries(ms), |ms|)
  {
    var es := Entries(ms);
    r := CollectEntries(es);
    forall i | 0 <= i < |ms|
      ensures Raises(EntryOf(ms[i])) <==> Raises(es[i])
    {
      EntryAt(ms, i);
    }
  }

  /** The loop of `tar_records`, over the members' keys and extensions. */
  method CollectEntries(es: seq<Entry>) returns (r: Result<Records, Exc>)
    ensures r.Err? <==> exists i :: 0 <= i < |es| && Raises(es[i])
    ensures r.Err? ==> r.error == TypeError
    ensures r.Ok? ==> r.value == Build(es, |es|)
  {
    var dict := Records([], map[]);
    var n := 0;
    while n < |es|
      invariant 0 <= n <= |es|
      invariant NoneRaise(es, n)
      invariant dict == Build(es, n)
    {
      var e := es[n];
      if e.extractable {
        var ok := CheckEntry(e.base, e.ext);
        if ok.Err? {
          assert Raises(es[n]);
          return Err(ok.error);
        }
        if ok.value {
          var order := if e.key in dict.recs then dict.order else dict.order + [e.key];
          dict := Records(order, Put(dict.recs, e));
        }
      }
      n := n + 1;
    }
    NoneRaiseSpec(es, |es|);
    return Ok(dict);
  }

  /** The dictionary after the first `n` entries, none of which raises. */
  function Build(es: seq<Entry>, n: nat): Records
    requires n <= |es|
  {
    if n == 0 then Records([], map[]) else Step(es[n - 1], Build(es, n - 1))
  }

  lemma {:induction false} BuildInv(es: seq<Entry>, n: nat)
    requires n <= |es|
    ensures OrderInv(es, n, Build(es, n).order) && ContentInv(es, n, Build(es, n).recs)
  {
    if n > 0 {
      var d := Build(es, n - 1);
      assert Build(es, n) == Step(es[n - 1], d);
      BuildInv(es, n - 1);
      StepKeeps(es, n - 1, d);
    }
  }

  /** None of the first `n` entries raises. */
  predicate NoneRaise(es: seq<Entry>, n: nat)
    requires n <= |es|
  {
    n == 0 || (!Raises(es[n - 1]) && NoneRaise(es, n - 1))
  }

  lemma {:induction false} NoneRaiseSpec(es: seq<Entry>, n: nat)
    requires n <= |es|
    ensures NoneRaise(es, n) <==> forall i :: 0 <= i < n ==> !Raises(es[i])
  {
    if n > 0 {
      NoneRaiseSpec(es, n - 1);
    }
  }

  /** The dictionary after one member that does not raise: a kept entry adds its key
      to the order when new and is stored by `Put`; any other entry changes nothing. */
  function Step(e: Entry, d: Records): Records {
    if Kept(e) then Records(if e.key in d.recs then d.order else d.order + [e.key], Put(d.recs, e))
    else d
  }

  lemma StepKeeps(es: seq<Entry>, n: nat, d: Records)
    requires n < |es|
    requires OrderInv(es, n, d.order) && ContentInv(es, n, d.recs)
    ensures OrderInv(es, n + 1, Step(es[n], d).order)
    ensures ContentInv(es, n + 1, Step(es[n], d).recs)
  {
    if Kept(es[n]) {
      assert es[n].key in d.recs <==> HasKey(es, n, es[n].key);
      AddEntryOrder(es, n, d.order);
      AddEntryContent(es, n, d.recs);
    } else {
      SkipEntry(es, n, d.order, d.recs);
    }
  }

  /** The record update for one kept entry: `__key__` and the entry's extension. */
  function Put(recs: map<string, Record>, e: Entry): (r: map<string, Record>)
    ensures r.Keys == recs.Keys + {e.key}
    ensures forall k :: k in recs && k != e.key ==> r[k] == recs[k]
    ensures "__key__" in r[e.key] && e.ext in r[e.key] && r[e.key][e.ext] == Content(e.data)
    ensures e.ext != "__key__" ==> r[e.key]["__key__"] == KeyName(e.key)
    ensures forall x :: x != e.ext && x != "__key__" ==>
      (x in r[e.key] <==> e.key in recs && x in recs[e.key]) &&
      (x in r[e.key] ==> r[e.key][x] == recs[e.key][x])
  {
    var rec := if e.key in recs then recs[e.key] else map[];
    recs[e.key := rec["__key__" := KeyName(e.key)][e.ext := Content(e.data)]]
  }

  /** An entry that is not kept changes neither invariant. */
  lemma SkipEntry(es: seq<Entry>, n: nat, order: seq<string>, recs: map<string, Record>)
    requires n < |es| && !Kept(es[n])
    requires OrderInv(es, n, order) && ContentInv(es, n, recs)
    ensures OrderInv(es, n + 1, order) && ContentInv(es, n + 1, recs)
  {
  }

  /** A kept entry appends its key to the order when the key is new. */
  lemma AddEntryOrder(es: seq<Entry>, n: nat, order: seq<string>)
    requires n < |es| && Kept(es[n])
    requires OrderInv(es, n, order)
    ensures OrderInv(es, n + 1, if HasKey(es, n, es[n].key) then order else order + [es[n].key])
  {
    var key := es[n].key;
    if !HasKey(es, n, key) {
      HasKeyFirst(es, n, key);
      HasKeyFirst(es, n + 1, key);
      forall a | 0 <= a < |order|
        ensures FirstIndex(es, order[a]) < n && order[a] != key
      {
        assert order[a] in order;
        HasKeyFirst(es, n, order[a]);
      }
    }
  }

  /** A kept entry sets `__key__` and overwrites its own extension in its key's record. */
  lemma AddEntryContent(es: seq<Entry>, n: nat, recs: map<string, Record>)
    requires n < |es| && Kept(es[n])
    requires ContentInv(es, n, recs)
    ensures ContentInv(es, n + 1, Put(recs, es[n]))
  {
    var e := es[n];
    var r := Put(recs, e);
    forall k, x | k in r && x != "__key__"
      ensures (x in r[k] <==> LastContent(es, n + 1, k, x).Some?)
      ensures x in r[k] ==> r[k][x] == Content(LastContent(es, n + 1, k, x).value)
    {
      if k != e.key {
        assert LastContent(es, n + 1, k, x) == LastContent(es, n, k, x);
      }
    }
  }

  /** `LastContent` is the content of a kept entry with that key and extension
      that no later kept entry (among the first `n`) overrides. */
  lemma {:induction false} LastContentSpec(es: seq<Entry>, n: nat, k: string, x: string)
    requires n <= |es|
    ensures LastContent(es, n, k, x).Some? <==>
      exists i :: 0 <= i < n && Kept(es[i]) && es[i].key == k && es[i].ext == x
    ensures LastContent(es, n, k, x).Some? ==>
      exists i :: 0 <= i < n && Kept(es[i]) && es[i].key == k && es[i].ext == x &&
        LastContent(es, n, k, x).value == es[i].data &&
        forall j :: i < j < n ==> !(Kept(es[j]) && es[j].key == k && es[j].ext == x)
  {
    if n > 0 {
      LastContentSpec(es, n - 1, k, x);
    }
  }

  /* ---------------- operations ---------------- */

  /** The operation classes of `OPS`, and anything else (`Other`). */
  datatype OpKind = Select | SelectJSON | Decode | Func | Resize | Convert | Other

  /** An operation object, or a Python list of them. */
  datatype Op = Single(kind: OpKind, extName: Option<string>) | OpList(items: seq<Op>)

  predicate InOps(op: Op) {
    op.Single? && op.kind != Other
  }

  /** `validate_op`. A list is never accepted: the loop raises at the first item that
      is not an operation (a nested list gets its own message), and a list whose items
      are all operations fails the final type test. */
  function ValidateOp(op: Op): (r: Outcome<Exc>)
    ensures r.Pass? <==> InOps(op)
    ensures op.Single? && r.Fail? ==> r.error == UnknownOpType
    ensures op.OpList? ==>
      r.error == (if exists i :: (0 <= i < |op.items| && op.items[i].OpList? &&
                    forall j :: 0 <= j < i ==> InOps(op.items[j]))
                  then NestedOpList else UnknownOpType)
  {
    match op
    case Single(kind, _) => if kind != Other then Pass else Fail(UnknownOpType)
    case OpList(items) =>
      var e := FirstBadItem(items);
      if e.Some? then Fail(e.value) else Fail(UnknownOpType)
  }

  /** The error of the loop in `validate_op` over a list's items, if any. */
  function FirstBadItem(items: seq<Op>): (r: Option<Exc>)
    ensures r.Some? <==> exists i :: 0 <= i < |items| && !InOps(items[i])
    ensures r == Some(NestedOpList) <==>
      exists i :: 0 <= i < |items| && items[i].OpList? && forall j :: 0 <= j < i ==> InOps(items[j])
    ensures r.Some? ==> r.value == NestedOpList || r.value == UnknownOpType
  {
    if |items| == 0 then None
    else if !InOps(items[0]) then
      if items[0].OpList? then Some(NestedOpList) else Some(UnknownOpType)
    else
      var r := FirstBadItem(items[1..]);
      assert forall i :: 1 <= i < |items| ==> items[i] == items[1..][i - 1];
      r
  }

  /** What `operation_to_value` returns: an operation's value, or the (empty)
      dictionary built for a list. */
  datatype OpValue<V> = One(v: V) | EmptyDict

  /** `operation_to_value`. For a list the first item is evaluated (with `ext_name`
      required) and then `ext_name` is read from the list itself, which raises: only
      the empty list succeeds. A single operation needs an `ext_name` when asked to,
      and otherwise yields its `do`. */
  function OperationToValue<R, V>(op: Op, record: R, extRequired: bool, do: (Op, R) -> Result<V, string>)
    : (r: Result<OpValue<V>, Exc>)
    ensures op.OpList? ==> (r.Ok? <==> |op.items| == 0)
    ensures op.OpList? && |op.items| > 0 ==>
      r.error == match OperationToValue(op.items[0], record, true, do)
                 case Err(e) => e
                 case Ok(_) => NoAttributeExtName
    ensures op.Single? && extRequired && op.extName.None? ==> r == Err(ExtNameRequired)
    ensures op.Single? && !(extRequired && op.extName.None?) ==>
      (r.Ok? <==> do(op, record).Ok?) &&
      (r.Ok? ==> r.value == One(do(op, record).value)) &&
      (r.Err? ==> r.error == OpFailed(do(op, record).error))
  {
    match op
    case OpList(items) =>
      if |items| == 0 then Ok(EmptyDict)
      else
        (match OperationToValue(items[0], record, true, do)
         case Err(e) => Err(e)
         case Ok(_) => Err(NoAttributeExtName))
    case Single(_, extName) =>
      if extRequired && extName.None? then Err(ExtNameRequired)
      else
        match do(op, record)
        case Err(msg) => Err(OpFailed(msg))
        case Ok(v) => Ok(One(v))
  }

  /** An operation that passed `validate_op` is evaluated by its own `do` alone. */
  lemma ValidatedOpEvaluates<R, V>(op: Op, record: R, do: (Op, R) -> Result<V, string>)
    requires ValidateOp(op).Pass?
    ensures OperationToValue(op, record, false, do) ==
      match do(op, record)
      case Err(msg) => Err(OpFailed(msg))
      case Ok(v) => Ok(One(v))
  {
  }

  /** The keyword arguments `load_from_tar` accepts. */
  const AcceptedArgs: seq<string> := ["output_types", "output_shapes", "path"]

  /** The argument check of `load_from_tar`: the first keyword outside the accepted
      ones is reported. */
  function CheckLoadArgs(kwargs: seq<string>): (r: Outcome<Exc>)
    ensures r.Pass? <==> forall i :: 0 <= i < |kwargs| ==> kwargs[i] in AcceptedArgs
    ensures r.Fail? ==> exists i :: (0 <= i < |kwargs| && kwargs[i] !in AcceptedArgs &&
      (forall j :: 0 <= j < i ==> kwargs[j] in AcceptedArgs) && r.error == InvalidArgument(kwargs[i]))
  {
    if |kwargs| == 0 then Pass
    else if kwargs[0] !in AcceptedArgs then Fail(InvalidArgument(kwargs[0]))
    else
      var r := CheckLoadArgs(kwargs[1..]);
      assert forall i :: 1 <= i < |kwargs| ==> kwargs[i] == kwargs[1..][i - 1];
      r
  }

  /** The validated part of an `AisDataset`. */
  datatype AisDataset = AisDataset(bucket: string, proxyUrl: string, valOp: Op, labelOp: Op)

  /** `AisDataset.__init__`: both operations are validated, the value operation first. */
  function NewAisDataset(bucket: string, proxyUrl: string, valOp: Op, labelOp: Op): (r: Result<AisDataset, Exc>)
    ensures r.Ok? <==> InOps(valOp) && InOps(labelOp)
    ensures r.Err? && !InOps(valOp) ==> Fail(r.error) == ValidateOp(valOp)
    ensures r.Err? && InOps(valOp) ==> Fail(r.error) == ValidateOp(labelOp)
    ensures r.Ok? ==> r.value == AisDataset(bucket, proxyUrl, valOp, labelOp)
  {
    match ValidateOp(valOp)
    case Fail(e) => Err(e)
    case Pass =>
      (match ValidateOp(labelOp)
       case Fail(e) => Err(e)
       case Pass => Ok(AisDataset(bucket, proxyUrl, valOp, labelOp)))
  }

  /** The constructor defaults: `Resize(Convert(Decode("jpg"), …), …)` and
      `Select("cls")` both validate. */
  lemma DefaultOpsValidate(bucket: string)
    ensures NewAisDataset(bucket, "localhost:8080", Single(Resize, None), Single(Select, Some("cls"))).Ok?
  {
  }
}
