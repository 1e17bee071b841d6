/** Access-control evaluation of an AuthN token (authnsrv/utils.go).

    A token carries cluster-wide ACLs (keyed by cluster ID, the empty ID being the
    default cluster) and per-bucket ACLs. A request asks for a 64-bit permission
    mask; the bits of the cluster mask are cluster permissions, the others object
    permissions. The rules, from highest priority: admin; the bucket ACL; the ACL of
    the cluster; the default cluster ACL.
 */
module Authn {
  import opened Wrappers

  /** `apc.AccessAttrs`. */
  type AccessAttrs = bv64

  /** `AccessAttrs.Has`: `a` grants every bit of `p`. */
  predicate Has(a: AccessAttrs, p: AccessAttrs) {
    a & p == p
  }

  datatype Namespace = Namespace(uuid: string, name: string)

  /** `cmn.Bck`; two buckets are equal when every component is. */
  datatype Bck = Bck(name: string, provider: string, ns: Namespace)

  /** `authn.CluACL` (keyed by cluster ID) and `authn.BckACL` (keyed by bucket). */
  datatype Acl<K> = Acl(key: K, access: AccessAttrs)

  type CluAcl = Acl<string>
  type BckAcl = Acl<Bck>

  datatype Token = Token(userId: string, clusterAcls: seq<CluAcl>, bucketAcls: seq<BckAcl>, isAdmin: bool)

  /** Index `i` holds the first ACL for `key`. */
  predicate IsFirst<K(==)>(acls: seq<Acl<K>>, key: K, i: int) {
    0 <= i < |acls| && acls[i].key == key && forall k :: 0 <= k < i ==> acls[k].key != key
  }

  /** Index `i` holds the last ACL for `key`. */
  predicate IsLast<K(==)>(acls: seq<Acl<K>>, key: K, i: int) {
    0 <= i < |acls| && acls[i].key == key && forall k :: i < k < |acls| ==> acls[k].key != key
  }

  predicate HasKey<K(==)>(acls: seq<Acl<K>>, key: K) {
    exists i :: 0 <= i < |acls| && acls[i].key == key
  }

  /** The access of the first ACL for `key`. */
  function Lookup<K(==)>(acls: seq<Acl<K>>, key: K): (r: Option<AccessAttrs>)
    ensures r.Some? <==> HasKey(acls, key)
    ensures forall i :: IsFirst(acls, key, i) ==> r == Some(acls[i].access)
  {
    if |acls| == 0 then None
    else if acls[0].key == key then Some(acls[0].access)
    else
      var r := Lookup(acls[1..], key);
      assert forall i :: IsFirst(acls, key, i) ==> IsFirst(acls[1..], key, i - 1);
      assert HasKey(acls[1..], key) ==> HasKey(acls, key);
      r
  }

  /** The access of the last ACL for `key`. */
  function LastLookup<K(==)>(acls: seq<Acl<K>>, key: K): (r: Option<AccessAttrs>)
    ensures r.Some? <==> HasKey(acls, key)
    ensures forall i :: IsLast(acls, key, i) ==> r == Some(acls[i].access)
  {
    if |acls| == 0 then None
    else
      var t := LastLookup(acls[1..], key);
      assert forall i :: 0 < i && IsLast(acls, key, i) ==> IsLast(acls[1..], key, i - 1);
      assert HasKey(acls[1..], key) ==> HasKey(acls, key);
      assert !HasKey(acls[1..], key) ==> forall k :: 0 < k < |acls| ==> acls[k].key != key;
      if t.Some? then t
      else if acls[0].key == key then Some(acls[0].access)
      else None
  }

  /** The loop of `aclForCluster`: an exact match returns at once, an ACL with the
      empty ID replaces the default seen so far. */
  function ScanClusterAcls(acls: seq<CluAcl>, clusterId: string, dflt: Option<AccessAttrs>): Option<AccessAttrs> {
    if |acls| == 0 then dflt
    else if acls[0].key == clusterId then Some(acls[0].access)
    else ScanClusterAcls(acls[1..], clusterId, if acls[0].key == "" then Some(acls[0].access) else dflt)
  }

  /** The single pass of the loop agrees with two independent lookups: the first
      exact match, else the last default ACL, else the default carried in. */
  lemma {:induction false} ScanClusterAclsSpec(acls: seq<CluAcl>, clusterId: string, dflt: Option<AccessAttrs>)
    ensures ScanClusterAcls(acls, clusterId, dflt) ==
      if Lookup(acls, clusterId).Some? then Lookup(acls, clusterId)
      else if LastLookup(acls, "").Some? then LastLookup(acls, "")
      else dflt
  {
    if |acls| > 0 && acls[0].key != clusterId {
      var d := if acls[0].key == "" then Some(acls[0].access) else dflt;
      ScanClusterAclsSpec(acls[1..], clusterId, d);
      assert Lookup(acls, clusterId) == Lookup(acls[1..], clusterId);
    }
  }

  /** `aclForCluster`: the ACL whose ID is exactly `clusterId` wins wherever it sits
      in the list; the (last) ACL with the empty ID is used only when there is no
      exact match; with neither the result is absent. */
  function AclForCluster(tk: Token, clusterId: string): (r: Option<AccessAttrs>)
    ensures forall i :: IsFirst(tk.clusterAcls, clusterId, i) ==> r == Some(tk.clusterAcls[i].access)
    ensures !HasKey(tk.clusterAcls, clusterId) ==>
      forall j :: IsLast(tk.clusterAcls, "", j) ==> r == Some(tk.clusterAcls[j].access)
    ensures r.None? <==> !HasKey(tk.clusterAcls, clusterId) && !HasKey(tk.clusterAcls, "")
  {
    ScanClusterAclsSpec(tk.clusterAcls, clusterId, None);
    ScanClusterAcls(tk.clusterAcls, clusterId, None)
  }

  /** The loop of `aclForBucket`: ACLs of other clusters are skipped, the first ACL
      whose bucket equals `bck` decides. The comparison uses the ACL's own bucket,
      namespace UUID included. */
  function ScanBucketAcls(acls: seq<BckAcl>, clusterId: string, bck: Bck): Option<AccessAttrs> {
    if |acls| == 0 then None
    else if acls[0].key.ns.uuid != clusterId then ScanBucketAcls(acls[1..], clusterId, bck)
    else if acls[0].key == bck then Some(acls[0].access)
    else ScanBucketAcls(acls[1..], clusterId, bck)
  }

  function AclForBucket(tk: Token, clusterId: string, bck: Bck): Option<AccessAttrs> {
    ScanBucketAcls(tk.bucketAcls, clusterId, bck)
  }

  /** A bucket ACL applies exactly when the requested bucket lives in the namespace
      of `clusterId`; it is then the first ACL for that bucket. */
  lemma {:induction false} AclForBucketSpec(acls: seq<BckAcl>, clusterId: string, bck: Bck)
    ensures ScanBucketAcls(acls, clusterId, bck) ==
      if bck.ns.uuid == clusterId then Lookup(acls, bck) else None
  {
    if |acls| > 0 {
      AclForBucketSpec(acls[1..], clusterId, bck);
    }
  }

  /** The errors `CheckPermissions` returns. `ErrNoPermissions` is the sentinel
      returned bare; the `...Denied` ones are messages that start with its text. */
  datatype AuthError =
    | EmptyPermissions
    | ErrNoPermissions
    | ClusterPermsWithoutId
    | ClusterDenied
    | BucketPermsWithoutBucket
    | BucketDenied
    | Denied

  /** `CheckPermissions(clusterID, bck, perms)`; `cluMask` is `apc.AccessCluster`
      and a nil bucket is `None`. */
  function CheckPermissions(tk: Token, clusterId: string, bck: Option<Bck>, perms: AccessAttrs, cluMask: AccessAttrs)
    : (r: Outcome<AuthError>)
    // 1. an admin is granted everything, even an empty request
    ensures tk.isAdmin ==> r.Pass?
    // a non-admin asking for nothing is refused
    ensures !tk.isAdmin && perms == 0 ==> r == Fail(EmptyPermissions)
    // cluster bits with no cluster ACL at all: the bare sentinel
    ensures !tk.isAdmin && perms & cluMask != 0 && AclForCluster(tk, clusterId).None? ==> r == Fail(ErrNoPermissions)
  {
    Decide(tk.isAdmin, clusterId, bck.Some?, perms, cluMask, AclForCluster(tk, clusterId),
           if bck.Some? then AclForBucket(tk, clusterId, bck.value) else None)
  }

  /** The body of `CheckPermissions` once the ACL of the cluster (`cluAcl`) and of
      the bucket (`bckAcl`, looked up only when there is a bucket) are known. */
  function Decide(isAdmin: bool, clusterId: string, hasBck: bool, perms: AccessAttrs, cluMask: AccessAttrs,
                  cluAcl: Option<AccessAttrs>, bckAcl: Option<AccessAttrs>): Outcome<AuthError>
  {
    if isAdmin then Pass
    else if perms == 0 then Fail(EmptyPermissions)
    else
      var cluPerms := perms & cluMask;
      var objPerms := perms & !cluMask;
      if cluPerms != 0 && cluAcl.None? then Fail(ErrNoPermissions)
      else if cluPerms != 0 && clusterId == "" then Fail(ClusterPermsWithoutId)
      else if cluPerms != 0 && !Has(cluAcl.value, cluPerms) then Fail(ClusterDenied)
      else if objPerms == 0 then Pass
      else if !hasBck then Fail(BucketPermsWithoutBucket)
      else if bckAcl.Some? then
        if Has(bckAcl.value, objPerms) then Pass else Fail(BucketDenied)
      else if cluAcl.None? || !Has(cluAcl.value, objPerms) then Fail(Denied)
      else Pass
  }

  /** The cluster bits `c` are granted by the cluster ACL `cluAcl`. */
  predicate GrantsCluster(clusterId: string, cluAcl: Option<AccessAttrs>, c: AccessAttrs) {
    c == 0 || (clusterId != "" && cluAcl.Some? && Has(cluAcl.value, c))
  }

  /** The object bits `o` are granted: by the bucket ACL when there is one, by the
      cluster ACL otherwise. */
  predicate GrantsObject(hasBck: bool, cluAcl: Option<AccessAttrs>, bckAcl: Option<AccessAttrs>, o: AccessAttrs) {
    o == 0 || (hasBck &&
      if bckAcl.Some? then Has(bckAcl.value, o) else cluAcl.Some? && Has(cluAcl.value, o))
  }

  lemma DecideGranted(isAdmin: bool, clusterId: string, hasBck: bool, perms: AccessAttrs, cluMask: AccessAttrs,
                      cluAcl: Option<AccessAttrs>, bckAcl: Option<AccessAttrs>)
    ensures Decide(isAdmin, clusterId, hasBck, perms, cluMask, cluAcl, bckAcl).Pass? <==>
      isAdmin ||
      (perms != 0 && GrantsCluster(clusterId, cluAcl, perms & cluMask) &&
       GrantsObject(hasBck, cluAcl, bckAcl, perms & !cluMask))
  {
    if !isAdmin && perms != 0 {
      if GrantsCluster(clusterId, cluAcl, perms & cluMask) {
        DecideObjectPart(clusterId, hasBck, perms, cluMask, cluAcl, bckAcl);
      } else {
        DecideClusterPart(clusterId, hasBck, perms, cluMask, cluAcl, bckAcl);
      }
    }
  }

  /** Cluster bits that are not granted refuse the request. */
  lemma DecideClusterPart(clusterId: string, hasBck: bool, perms: AccessAttrs, cluMask: AccessAttrs,
                          cluAcl: Option<AccessAttrs>, bckAcl: Option<AccessAttrs>)
    requires perms != 0 && !GrantsCluster(clusterId, cluAcl, perms & cluMask)
    ensures Decide(false, clusterId, hasBck, perms, cluMask, cluAcl, bckAcl).Fail?
  {
  }

  /** Once the cluster bits are granted, the object bits decide. */
  lemma DecideObjectPart(clusterId: string, hasBck: bool, perms: AccessAttrs, cluMask: AccessAttrs,
                         cluAcl: Option<AccessAttrs>, bckAcl: Option<AccessAttrs>)
    requires perms != 0 && GrantsCluster(clusterId, cluAcl, perms & cluMask)
    ensures Decide(false, clusterId, hasBck, perms, cluMask, cluAcl, bckAcl).Pass? <==>
      GrantsObject(hasBck, cluAcl, bckAcl, perms & !cluMask)
  {
  }

  /** An ACL with some bits has every subset of them; the step of `ClusterGrantedMonotone` and `ObjectGrantedMonotone`. */
  lemma HasSubset(a: AccessAttrs, p: AccessAttrs, q: AccessAttrs)
    requires q & p == q && Has(a, p)
    ensures Has(a, q)
  {
    calc {
      a & q;
      a & (q & p);
      (a & p) & q;
      p & q;
      q;
    }
  }

  /** The cluster bits `c` of a request are granted. */
  predicate ClusterGranted(tk: Token, clusterId: string, c: AccessAttrs) {
    GrantsCluster(clusterId, AclForCluster(tk, clusterId), c)
  }

  /** The object bits `o` of a request are granted: by the bucket ACL when there is
      one, by the cluster ACL otherwise. */
  predicate ObjectGranted(tk: Token, clusterId: string, bck: Option<Bck>, o: AccessAttrs) {
    GrantsObject(bck.Some?, AclForCluster(tk, clusterId),
                 if bck.Some? then AclForBucket(tk, clusterId, bck.value) else None, o)
  }

  /** The whole decision at once: a request is granted iff the token is an admin's,
      or the request is non-empty and both its cluster and its object bits are granted. */
  lemma CheckPermissionsGranted(tk: Token, clusterId: string, bck: Option<Bck>, perms: AccessAttrs, cluMask: AccessAttrs)
    ensures CheckPermissions(tk, clusterId, bck, perms, cluMask).Pass? <==>
      tk.isAdmin ||
      (perms != 0 && ClusterGranted(tk, clusterId, perms & cluMask) && ObjectGranted(tk, clusterId, bck, perms & !cluMask))
  {
    var cluAcl := AclForCluster(tk, clusterId);
    var bckAcl := if bck.Some? then AclForBucket(tk, clusterId, bck.value) else None;
    assert CheckPermissions(tk, clusterId, bck, perms, cluMask) ==
      Decide(tk.isAdmin, clusterId, bck.Some?, perms, cluMask, cluAcl, bckAcl);
    assert ClusterGranted(tk, clusterId, perms & cluMask) == GrantsCluster(clusterId, cluAcl, perms & cluMask);
    assert ObjectGranted(tk, clusterId, bck, perms & !cluMask) == GrantsObject(bck.Some?, cluAcl, bckAcl, perms & !cluMask);
    DecideGranted(tk.isAdmin, clusterId, bck.Some?, perms, cluMask, cluAcl, bckAcl);
  }

  /** The cluster bits and the object bits of a request split it. */
  lemma MaskParts(perms: AccessAttrs, cluMask: AccessAttrs)
    ensures perms & cluMask == 0 ==> perms & !cluMask == perms
    ensures perms != 0 ==> perms & cluMask != 0 || perms & !cluMask != 0
  {
  }

  /** Cluster bits are granted only with a cluster ID and a cluster ACL holding all
      of them. */
  lemma ClusterBitsNeedAcl(tk: Token, clusterId: string, bck: Option<Bck>, perms: AccessAttrs, cluMask: AccessAttrs)
    requires !tk.isAdmin && perms & cluMask != 0
    ensures CheckPermissions(tk, clusterId, bck, perms, cluMask).Pass? ==>
      clusterId != "" && AclForCluster(tk, clusterId).Some? && Has(AclForCluster(tk, clusterId).value, perms & cluMask)
  {
    CheckPermissionsGranted(tk, clusterId, bck, perms, cluMask);
  }

  /** Object bits are refused without a bucket. */
  lemma ObjectBitsNeedBucket(tk: Token, clusterId: string, perms: AccessAttrs, cluMask: AccessAttrs)
    requires !tk.isAdmin && perms & !cluMask != 0
    ensures CheckPermissions(tk, clusterId, None, perms, cluMask).Fail?
  {
    CheckPermissionsGranted(tk, clusterId, None, perms, cluMask);
  }

  /** For a request of object bits only, a matching bucket ACL alone decides; without
      one, the ACL of the cluster (or of the default cluster) must hold all the bits. */
  lemma ObjectRequestRule(tk: Token, clusterId: string, b: Bck, perms: AccessAttrs, cluMask: AccessAttrs)
    requires !tk.isAdmin && perms != 0 && perms & cluMask == 0
    ensures var bckAcl := AclForBucket(tk, clusterId, b);
      bckAcl.Some? ==> (CheckPermissions(tk, clusterId, Some(b), perms, cluMask).Pass? <==> Has(bckAcl.value, perms))
    ensures var cluAcl := AclForCluster(tk, clusterId);
      AclForBucket(tk, clusterId, b).None? ==>
        (CheckPermissions(tk, clusterId, Some(b), perms, cluMask).Pass? <==> cluAcl.Some? && Has(cluAcl.value, perms))
  {
    CheckPermissionsGranted(tk, clusterId, Some(b), perms, cluMask);
    MaskParts(perms, cluMask);
  }

  /** The cluster and the object part of a sub-request are sub-masks of the
      corresponding parts of the request. */
  lemma SubMaskParts(perms: AccessAttrs, sub: AccessAttrs, cluMask: AccessAttrs)
    requires sub & perms == sub
    ensures (sub & cluMask) & (perms & cluMask) == sub & cluMask
    ensures (sub & !cluMask) & (perms & !cluMask) == sub & !cluMask
  {
  }

  lemma ClusterGrantedMonotone(tk: Token, clusterId: string, c: AccessAttrs, c': AccessAttrs)
    requires c' & c == c' && ClusterGranted(tk, clusterId, c)
    ensures ClusterGranted(tk, clusterId, c')
  {
    if c' != 0 {
      assert c != 0 by { assert c' & c == c'; }
      HasSubset(AclForCluster(tk, clusterId).value, c, c');
    }
  }

  lemma ObjectGrantedMonotone(tk: Token, clusterId: string, bck: Option<Bck>, o: AccessAttrs, o': AccessAttrs)
    requires o' & o == o' && ObjectGranted(tk, clusterId, bck, o)
    ensures ObjectGranted(tk, clusterId, bck, o')
  {
    if o' != 0 {
      assert o != 0 by { assert o' & o == o'; }
      var bckAcl := AclForBucket(tk, clusterId, bck.value);
      if bckAcl.Some? {
        HasSubset(bckAcl.value, o, o');
      } else {
        HasSubset(AclForCluster(tk, clusterId).value, o, o');
      }
    }
  }

  lemma ClusterPartMonotone(tk: Token, clusterId: string, perms: AccessAttrs, sub: AccessAttrs, cluMask: AccessAttrs)
    requires sub & perms == sub && ClusterGranted(tk, clusterId, perms & cluMask)
    ensures ClusterGranted(tk, clusterId, sub & cluMask)
  {
    SubMaskParts(perms, sub, cluMask);
    ClusterGrantedMonotone(tk, clusterId, perms & cluMask, sub & cluMask);
  }

  lemma ObjectPartMonotone(tk: Token, clusterId: string, bck: Option<Bck>, perms: AccessAttrs, sub: AccessAttrs, cluMask: AccessAttrs)
    requires sub & perms == sub && ObjectGranted(tk, clusterId, bck, perms & !cluMask)
    ensures ObjectGranted(tk, clusterId, bck, sub & !cluMask)
  {
    SubMaskParts(perms, sub, cluMask);
    ObjectGrantedMonotone(tk, clusterId, bck, perms & !cluMask, sub & !cluMask);
  }

  /** A granted request stays granted when it asks for any non-empty subset of its bits. */
  lemma GrantIsMonotone(tk: Token, clusterId: string, bck: Option<Bck>, perms: AccessAttrs, sub: AccessAttrs, cluMask: AccessAttrs)
    requires sub != 0 && sub & perms == sub
    requires CheckPermissions(tk, clusterId, bck, perms, cluMask).Pass?
    ensures CheckPermissions(tk, clusterId, bck, sub, cluMask).Pass?
  {
    CheckPermissionsGranted(tk, clusterId, bck, perms, cluMask);
    CheckPermissionsGranted(tk, clusterId, bck, sub, cluMask);
    if !tk.isAdmin {
      ClusterPartMonotone(tk, clusterId, perms, sub, cluMask);
      ObjectPartMonotone(tk, clusterId, bck, perms, sub, cluMask);
    }
  }

  /** One step of `MergeClusterACLs`: the first entry with `n`'s key takes `n`'s
      access; with no such entry, `n` is appended. */
  function Upsert<K(==,!new)>(acls: seq<Acl<K>>, n: Acl<K>): (r: seq<Acl<K>>)
    ensures |r| == if HasKey(acls, n.key) then |acls| else |acls| + 1
    ensures forall i :: 0 <= i < |acls| ==> r[i].key == acls[i].key
    ensures forall i :: 0 <= i < |acls| && acls[i].key != n.key ==> r[i] == acls[i]
    ensures !HasKey(acls, n.key) ==> r[|acls|] == n
  {
    if |acls| == 0 then [n]
    else if acls[0].key == n.key then [acls[0].(access := n.access)] + acls[1..]
    else
      var t := Upsert(acls[1..], n);
      assert HasKey(acls, n.key) <==> HasKey(acls[1..], n.key);
      [acls[0]] + t
  }

  /** Some entry before position `i` has key `k`. */
  predicate KeyBefore<K(==)>(acls: seq<Acl<K>>, k: K, i: int) {
    exists j :: 0 <= j < i && j < |acls| && acls[j].key == k
  }

  /** An upsert stops at the first entry with `n`'s key: that entry takes `n`'s
      access, and a later entry repeating the key is left as it was. */
  lemma UpsertFirstOnly<K(!new)>(acls: seq<Acl<K>>, n: Acl<K>)
    ensures forall i :: 0 <= i < |acls| && acls[i].key == n.key && !KeyBefore(acls, n.key, i) ==>
      Upsert(acls, n)[i] == acls[i].(access := n.access)
    ensures forall i :: 0 <= i < |acls| && acls[i].key == n.key && KeyBefore(acls, n.key, i) ==>
      Upsert(acls, n)[i] == acls[i]
  {
    forall i | 0 <= i < |acls| && acls[i].key == n.key
      ensures Upsert(acls, n)[i] == if KeyBefore(acls, n.key, i) then acls[i] else acls[i].(access := n.access)
    {
      UpsertAt(acls, n, i);
    }
  }

  /** The entry at `i` after an upsert, when it has `n`'s key; a step of
      `UpsertFirstOnly`. */
  lemma {:induction false} UpsertAt<K(!new)>(acls: seq<Acl<K>>, n: Acl<K>, i: nat)
    requires i < |acls| && acls[i].key == n.key
    ensures Upsert(acls, n)[i] == if KeyBefore(acls, n.key, i) then acls[i] else acls[i].(access := n.access)
    decreases i
  {
    if acls[0].key == n.key {
      if i > 0 {
        assert KeyBefore(acls, n.key, i);
      }
    } else {
      var tail := acls[1..];
      assert tail[i - 1] == acls[i];
      UpsertAt(tail, n, i - 1);
      if KeyBefore(acls, n.key, i) {
        var m :| 0 <= m < i && m < |acls| && acls[m].key == n.key;
        assert tail[m - 1].key == n.key;
      }
      if KeyBefore(tail, n.key, i - 1) {
        var m :| 0 <= m < i - 1 && m < |tail| && tail[m].key == n.key;
        assert acls[m + 1].key == n.key;
      }
    }
  }

  /** After an upsert, `n`'s key finds `n`'s access and every other key finds what
      it found before. */
  lemma {:induction false} UpsertLookup<K(!new)>(acls: seq<Acl<K>>, n: Acl<K>, k: K)
    ensures Lookup(Upsert(acls, n), k) == if k == n.key then Some(n.access) else Lookup(acls, k)
  {
    if |acls| > 0 && acls[0].key != n.key {
      UpsertLookup(acls[1..], n, k);
      var r := Upsert(acls, n);
      assert r == [acls[0]] + Upsert(acls[1..], n);
      if k != acls[0].key {
        assert Lookup(r, k) == Lookup(r[1..], k);
      }
    }
  }

  /** The outer loop of `MergeClusterACLs` (and of the corrected `MergeBckACLs`). */
  function Merge<K(==,!new)>(olds: seq<Acl<K>>, news: seq<Acl<K>>): seq<Acl<K>>
    decreases |news|
  {
    if |news| == 0 then olds else Merge(Upsert(olds, news[0]), news[1..])
  }

  /** After merging, looking a key up finds its last new access if the key is
      among the new ACLs and its old access otherwise. */
  lemma {:induction false} MergeLookup<K(!new)>(olds: seq<Acl<K>>, news: seq<Acl<K>>, k: K)
    ensures Lookup(Merge(olds, news), k) == if HasKey(news, k) then LastLookup(news, k) else Lookup(olds, k)
    decreases |news|
  {
    if |news| > 0 {
      var n := news[0];
      MergeLookup(Upsert(olds, n), news[1..], k);
      UpsertLookup(olds, n, k);
      assert HasKey(news, k) <==> HasKey(news[1..], k) || n.key == k;
      if !HasKey(news[1..], k) {
        assert forall i :: 0 < i < |news| ==> news[i].key != k;
      }
    }
  }

  /** The old entries keep their place and key, and an old entry that no new ACL
      names is untouched. */
  lemma {:induction false} MergeKeepsOld<K(!new)>(olds: seq<Acl<K>>, news: seq<Acl<K>>)
    ensures |Merge(olds, news)| >= |olds|
    ensures forall i :: 0 <= i < |olds| ==> Merge(olds, news)[i].key == olds[i].key
    ensures forall i :: 0 <= i < |olds| && !HasKey(news, olds[i].key) ==> Merge(olds, news)[i] == olds[i]
    ensures forall i :: 0 <= i < |olds| && KeyBefore(olds, olds[i].key, i) ==> Merge(olds, news)[i] == olds[i]
    decreases |news|
  {
    if |news| > 0 {
      var n := news[0];
      var olds' := Upsert(olds, n);
      MergeKeepsOld(olds', news[1..]);
      UpsertFirstOnly(olds, n);
      forall i | 0 <= i < |olds| && KeyBefore(olds, olds[i].key, i)
        ensures Merge(olds, news)[i] == olds[i]
      {
        var m :| 0 <= m < i && m < |olds| && olds[m].key == olds[i].key;
        assert olds'[m].key == olds'[i].key;
        assert KeyBefore(olds', olds'[i].key, i);
        assert olds'[i] == olds[i];
      }
      forall i | 0 <= i < |olds| && !HasKey(news, olds[i].key)
        ensures Merge(olds, news)[i] == olds[i]
      {
        assert olds[i].key != n.key;
        assert !HasKey(news[1..], olds[i].key);
      }
    }
  }

  /** Every appended entry has a key that was absent before and that some new ACL
      names. */
  lemma {:induction false} MergeAppendsNew<K(!new)>(olds: seq<Acl<K>>, news: seq<Acl<K>>)
    ensures var r := Merge(olds, news);
      forall i :: |olds| <= i < |r| ==> !HasKey(olds, r[i].key) && HasKey(news, r[i].key)
    decreases |news|
  {
    if |news| > 0 {
      var n := news[0];
      var olds' := Upsert(olds, n);
      var r := Merge(olds', news[1..]);
      MergeAppendsNew(olds', news[1..]);
      MergeKeepsOld(olds', news[1..]);
      forall i | |olds| <= i < |r|
        ensures !HasKey(olds, r[i].key) && HasKey(news, r[i].key)
      {
        var k := r[i].key;
        if i < |olds'| {
          assert !HasKey(olds, n.key);
          assert i == |olds| && olds'[i] == n;
          assert r[i].key == olds'[i].key;
          assert news[0].key == k;
        } else {
          UpsertKeepsKeys(olds, n, k);
          TailKey(news, k);
        }
      }
    }
  }

  /** `Upsert` drops no key; used by `MergeAppendsNew` to keep the appended keys absent from the old list. */
  lemma UpsertKeepsKeys<K(!new)>(acls: seq<Acl<K>>, n: Acl<K>, k: K)
    ensures HasKey(acls, k) ==> HasKey(Upsert(acls, n), k)
  {
    if HasKey(acls, k) {
      var m :| 0 <= m < |acls| && acls[m].key == k;
      assert Upsert(acls, n)[m].key == k;
    }
  }

  /** A key of the tail is a key of the list; a step of `MergeAppendsNew`. */
  lemma TailKey<K(!new)>(acls: seq<Acl<K>>, k: K)
    requires |acls| > 0
    ensures HasKey(acls[1..], k) ==> HasKey(acls, k)
  {
    if HasKey(acls[1..], k) {
      var m :| 0 <= m < |acls[1..]| && acls[1..][m].key == k;
      assert acls[m + 1].key == k;
    }
  }

  /** No two appended entries share a key. */
  lemma {:induction false} MergeAppendsDistinct<K(!new)>(olds: seq<Acl<K>>, news: seq<Acl<K>>)
    ensures var r := Merge(olds, news);
      forall i, j :: |olds| <= i < j < |r| ==> r[i].key != r[j].key
    decreases |news|
  {
    if |news| > 0 {
      var n := news[0];
      var olds' := Upsert(olds, n);
      var r := Merge(olds', news[1..]);
      MergeAppendsDistinct(olds', news[1..]);
      MergeAppendsNew(olds', news[1..]);
      MergeKeepsOld(olds', news[1..]);
      forall i, j | |olds| <= i < j < |r|
        ensures r[i].key != r[j].key
      {
        if i < |olds'| {
          assert !HasKey(olds, n.key);
          assert i == |olds| && olds'[i] == n;
          assert r[i].key == olds'[i].key;
          assert !HasKey(olds', r[j].key);
        }
      }
    }
  }

  /** `MergeClusterACLs`. */
  function MergeClusterAcls(olds: seq<CluAcl>, news: seq<CluAcl>): (r: seq<CluAcl>)
    ensures forall id :: Lookup(r, id) == if HasKey(news, id) then LastLookup(news, id) else Lookup(olds, id)
    ensures forall i :: 0 <= i < |olds| && !HasKey(news, olds[i].key) ==> i < |r| && r[i] == olds[i]
    ensures forall i :: 0 <= i < |olds| && KeyBefore(olds, olds[i].key, i) ==> i < |r| && r[i] == olds[i]
    ensures forall i :: |olds| <= i < |r| ==> !HasKey(olds, r[i].key) && HasKey(news, r[i].key)
    ensures forall i, j :: |olds| <= i < j < |r| ==> r[i].key != r[j].key
  {
    forall k ensures Lookup(Merge(olds, news), k) == if HasKey(news, k) then LastLookup(news, k) else Lookup(olds, k) {
      MergeLookup(olds, news, k);
    }
    MergeKeepsOld(olds, news);
    MergeAppendsNew(olds, news);
    MergeAppendsDistinct(olds, news);
    Merge(olds, news)
  }

  /** `MergeBckACLs` as it is meant to behave: the same merge, keyed by bucket. */
  function MergeBckAcls(olds: seq<BckAcl>, news: seq<BckAcl>): (r: seq<BckAcl>)
    ensures forall b :: Lookup(r, b) == if HasKey(news, b) then LastLookup(news, b) else Lookup(olds, b)
    ensures forall i :: 0 <= i < |olds| && !HasKey(news, olds[i].key) ==> i < |r| && r[i] == olds[i]
    ensures forall i :: 0 <= i < |olds| && KeyBefore(olds, olds[i].key, i) ==> i < |r| && r[i] == olds[i]
    ensures forall i :: |olds| <= i < |r| ==> !HasKey(olds, r[i].key) && HasKey(news, r[i].key)
    ensures forall i, j :: |olds| <= i < j < |r| ==> r[i].key != r[j].key
  {
    forall k ensures Lookup(Merge(olds, news), k) == if HasKey(news, k) then LastLookup(news, k) else Lookup(olds, k) {
      MergeLookup(olds, news, k);
    }
    MergeKeepsOld(olds, news);
    MergeAppendsNew(olds, news);
    MergeAppendsDistinct(olds, news);
    Merge(olds, news)
  }

  /** The inner loop of `MergeBckACLs` as written: it ranges over the first `snap`
      entries, updates the first match and stops, and appends `n` after every
      non-matching entry it passes. */
  function InnerBckLoopAsWritten(acls: seq<BckAcl>, snap: nat, i: nat, n: BckAcl): seq<BckAcl>
    requires i <= snap <= |acls|
    decreases snap - i
  {
    if i == snap then acls
    else if acls[i].key == n.key then acls[i := acls[i].(access := n.access)]
    else InnerBckLoopAsWritten(acls + [n], snap, i + 1, n)
  }

  /** `MergeBckACLs` as written (values only: the aliasing of repeated references is
      not represented). */
  function MergeBckAclsAsWritten(olds: seq<BckAcl>, news: seq<BckAcl>): seq<BckAcl>
    decreases |news|
  {
    if |news| == 0 then olds
    else MergeBckAclsAsWritten(InnerBckLoopAsWritten(olds, |olds|, 0, news[0]), news[1..])
  }

  /** As written, a new bucket ACL is lost when there are no old ones, and is
      appended once for every old entry scanned before its match. */
  lemma MergeBckAclsAsWrittenDiffers(a: Bck, b: Bck, x: AccessAttrs, y: AccessAttrs)
    requires a != b
    ensures MergeBckAclsAsWritten([], [Acl(a, x)]) == []
    ensures MergeBckAcls([], [Acl(a, x)]) == [Acl(a, x)]
    ensures MergeBckAclsAsWritten([Acl(a, x), Acl(b, x)], [Acl(b, y)]) == [Acl(a, x), Acl(b, y), Acl(b, y)]
    ensures MergeBckAcls([Acl(a, x), Acl(b, x)], [Acl(b, y)]) == [Acl(a, x), Acl(b, y)]
  {
    assert Upsert([], Acl(a, x)) == [Acl(a, x)];
    assert Merge([Acl(a, x)], []) == [Acl(a, x)];
    var olds := [Acl(a, x), Acl(b, x)];
    assert InnerBckLoopAsWritten(olds, 2, 0, Acl(b, y)) == InnerBckLoopAsWritten(olds + [Acl(b, y)], 2, 1, Acl(b, y));
    assert Upsert([Acl(b, x)], Acl(b, y)) == [Acl(b, y)];
    assert Upsert(olds, Acl(b, y)) == [Acl(a, x), Acl(b, y)];
    assert [Acl(b, y)][1..] == [];
    assert Merge([Acl(a, x), Acl(b, y)], []) == [Acl(a, x), Acl(b, y)];
  }
}
