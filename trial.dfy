/** The trial handlers: every operation works on the shared `studies` bucket,
    keyed by the trial's full id. */
module Trial {
  import opened Order
  import opened Buckets
  import opened Resources
  import opened Keys

  /** The record List builds for one scanned entry. */
  function TrialResource(host: string, item: Item<Bytes>): Resource
  {
    Resource(Version, "trial", item.key, Url(host, item.key), Some(item.value), "")
  }

  /** The two roots Delete scans, in order: the trial's own key, and the
      alternate file root of the (study, trial) pair. Neither ends in a
      separator. */
  function DeleteRoots(study: string, trial: string): (roots: seq<string>)
    ensures forall k :: Covered(k, roots) <==> TrialKey(study, trial) <= k || TrialFilesPrefix(study, trial) <= k
  {
    CoveredByPair(TrialKey(study, trial), TrialFilesPrefix(study, trial));
    [TrialKey(study, trial), TrialFilesPrefix(study, trial)]
  }

  /** `k` starts with one of `roots`. */
  predicate Covered(k: string, roots: seq<string>)
  {
    exists p :: p in roots && p <= k
  }

  /** A key is covered by two roots exactly when it starts with one of them. */
  lemma CoveredByPair(a: string, b: string)
    ensures forall k :: Covered(k, [a, b]) <==> a <= k || b <= k
  {
    forall k
      ensures Covered(k, [a, b]) <==> a <= k || b <= k
    {
      assert a in [a, b] && b in [a, b];
    }
  }

  /** The roots a cascade gets through: every root before the first one whose
      scan fails. */
  function Reached(roots: seq<string>, bucket: string, faults: Faults): (done: seq<string>)
    ensures done <= roots
    ensures forall p :: p in done ==> ScanPrefix(bucket, p) !in faults
    ensures |done| < |roots| ==> ScanPrefix(bucket, roots[|done|]) in faults
  {
    if roots == [] || ScanPrefix(bucket, roots[0]) in faults then []
    else [roots[0]] + Reached(roots[1..], bucket, faults)
  }

  /** `m` after deleting every key under `done` whose removal does not fail. */
  ghost function Pruned(m: map<string, Bytes>, done: seq<string>, bucket: string, faults: Faults): map<string, Bytes>
  {
    map k | k in m && (!Covered(k, done) || Remove(bucket, k) in faults) :: m[k]
  }

  /** The keys under `done` whose removal fails. */
  ghost function Stuck(m: map<string, Bytes>, done: seq<string>, bucket: string, faults: Faults): set<string>
  {
    set k | k in m && Covered(k, done) && Remove(bucket, k) in faults
  }

  /** `m` after removing, one by one, the keys of `ks` whose removal does not
      fail. */
  ghost function RemoveAll(m: map<string, Bytes>, ks: seq<string>, bucket: string, faults: Faults): map<string, Bytes>
  {
    map k | k in m && (k !in ks || Remove(bucket, k) in faults) :: m[k]
  }

  lemma RemoveAllSnoc(m: map<string, Bytes>, ks: seq<string>, x: string, bucket: string, faults: Faults)
    ensures RemoveAll(m, ks + [x], bucket, faults)
         == if Remove(bucket, x) in faults then RemoveAll(m, ks, bucket, faults)
            else RemoveAll(m, ks, bucket, faults) - {x}
    ensures RemovalFailures(ks + [x], bucket, faults)
         == RemovalFailures(ks, bucket, faults) + if Remove(bucket, x) in faults then {x} else {}
  {
  }

  /** The keys of `ks` whose removal fails. */
  ghost function RemovalFailures(ks: seq<string>, bucket: string, faults: Faults): set<string>
  {
    set k | k in ks && Remove(bucket, k) in faults
  }

  /** A cascade over `roots` reports an error: a scan failed, or a removal did. */
  ghost predicate CascadeFails(m: map<string, Bytes>, roots: seq<string>, bucket: string, faults: Faults)
  {
    var done := Reached(roots, bucket, faults);
    done != roots || Stuck(m, done, bucket, faults) != {}
  }

  lemma {:induction false} ReachedUpTo(roots: seq<string>, i: nat, bucket: string, faults: Faults)
    requires i <= |roots|
    requires forall j :: 0 <= j < i ==> ScanPrefix(bucket, roots[j]) !in faults
    requires i < |roots| ==> ScanPrefix(bucket, roots[i]) in faults
    ensures Reached(roots, bucket, faults) == roots[..i]
  {
    if i > 0 {
      ReachedUpTo(roots[1..], i - 1, bucket, faults);
      assert roots[..i] == [roots[0]] + roots[1..][..i - 1];
    }
  }

  lemma CoveredWithin(k: string, done: seq<string>, roots: seq<string>)
    requires done <= roots
    ensures Covered(k, done) ==> Covered(k, roots)
  {
    if Covered(k, done) {
      var p :| p in done && p <= k;
      var i :| 0 <= i < |done| && done[i] == p;
      assert roots[i] == p;
      assert p in roots;
    }
  }

  lemma CoveredExtend(k: string, done: seq<string>, p: string)
    ensures Covered(k, done + [p]) <==> Covered(k, done) || p <= k
  {
    if p <= k {
      assert p in done + [p];
    }
    if Covered(k, done) {
      var q :| q in done && q <= k;
      assert q in done + [p];
    }
  }

  /** One more root: what the scan of `p` over the pruned state `mi` lists is
      exactly what extending the done roots by `p` removes. */
  lemma PruneStep(m0: map<string, Bytes>, done: seq<string>, p: string, items: seq<Item<Bytes>>, bucket: string, faults: Faults)
    requires IsListing(Pruned(m0, done, bucket, faults), Matching(Pruned(m0, done, bucket, faults), p), items)
    ensures Pruned(m0, done + [p], bucket, faults)
         == RemoveAll(Pruned(m0, done, bucket, faults), KeysOf(items), bucket, faults)
    ensures Stuck(m0, done + [p], bucket, faults)
         == Stuck(m0, done, bucket, faults) + RemovalFailures(KeysOf(items), bucket, faults)
  {
    forall k
      ensures Covered(k, done + [p]) <==> Covered(k, done) || p <= k
    {
      CoveredExtend(k, done, p);
    }
  }

  /** Deleting the same roots twice leaves the store and the reply of the
      first time: what survives is what could not be removed, and it fails
      again. */
  lemma CascadeIdempotent(m: map<string, Bytes>, roots: seq<string>, bucket: string, faults: Faults)
    ensures var once := Pruned(m, Reached(roots, bucket, faults), bucket, faults);
            && Pruned(once, Reached(roots, bucket, faults), bucket, faults) == once
            && (CascadeFails(once, roots, bucket, faults) <==> CascadeFails(m, roots, bucket, faults))
  {
    var done := Reached(roots, bucket, faults);
    var once := Pruned(m, done, bucket, faults);
    assert Stuck(once, done, bucket, faults) == Stuck(m, done, bucket, faults);
  }

  /** A failed scan of the first root aborts the cascade: nothing is
      deleted, not even under the second root. */
  lemma FirstScanFailureAborts(m: map<string, Bytes>, roots: seq<string>, bucket: string, faults: Faults)
    requires |roots| > 0 && ScanPrefix(bucket, roots[0]) in faults
    ensures Pruned(m, Reached(roots, bucket, faults), bucket, faults) == m
    ensures CascadeFails(m, roots, bucket, faults)
  {
    assert Reached(roots, bucket, faults) == [];
  }

  /** The first root is fully processed before the second is scanned: when
      only the second scan fails, every removable key under the first root is
      gone and every key under the second root alone is still there. */
  lemma SecondScanFailureKeepsFirstRootWork(m: map<string, Bytes>, r1: string, r2: string, bucket: string, faults: Faults)
    requires ScanPrefix(bucket, r1) !in faults && ScanPrefix(bucket, r2) in faults
    ensures var after := Pruned(m, Reached([r1, r2], bucket, faults), bucket, faults);
            && (forall k :: k in after && r1 <= k ==> Remove(bucket, k) in faults)
            && (forall k :: k in m && !(r1 <= k) ==> k in after && after[k] == m[k])
  {
    assert Reached([r1, r2], bucket, faults) == [r1];
    forall k
      ensures Covered(k, [r1]) <==> r1 <= k
    {
      CoveredExtend(k, [], r1);
      assert [] + [r1] == [r1];
    }
  }

  /** A failed removal does not stop the cascade: with no failed scan, every
      covered key whose own removal succeeds is gone. */
  lemma FailedRemovalDoesNotStopOthers(m: map<string, Bytes>, roots: seq<string>, bucket: string, faults: Faults, k: string)
    requires forall p :: p in roots ==> ScanPrefix(bucket, p) !in faults
    requires k in m && Covered(k, roots) && Remove(bucket, k) !in faults
    ensures k !in Pruned(m, Reached(roots, bucket, faults), bucket, faults)
  {
    ReachedUpTo(roots, |roots|, bucket, faults);
    assert roots[..|roots|] == roots;
  }

  /** The delete prefixes carry no separator after the trial id: deleting
      trial T1 of study S also removes trial T10 and its files. */
  lemma DeleteOfT1RemovesT10(v: Bytes, w: Bytes)
    ensures var m := map["/studies/S/trials/T10" := v, "/files/S/T10/F1" := w];
            Pruned(m, Reached(DeleteRoots("S", "T1"), "studies", {}), "studies", {}) == map[]
  {
    var m := map["/studies/S/trials/T10" := v, "/files/S/T10/F1" := w];
    var roots := DeleteRoots("S", "T1");
    ReachedUpTo(roots, 2, "studies", {});
    assert roots[..2] == roots;
    assert roots[0] == "/studies/S/trials/T1" && roots[0] <= "/studies/S/trials/T10";
    assert roots[1] == "/files/S/T1" && roots[1] <= "/files/S/T10/F1";
    assert roots[0] in roots && roots[1] in roots;
    assert Covered("/studies/S/trials/T10", roots) && Covered("/files/S/T10/F1", roots);
    assert Pruned(m, roots, "studies", {}).Keys == {};
  }

  /** The roots a separator-bounded delete scans: everything below the trial
      key and everything below the trial's file root. */
  function SubtreeRoots(study: string, trial: string): (roots: seq<string>)
    ensures forall k :: Covered(k, roots) <==>
              TrialKey(study, trial) + "/" <= k || TrialFilesPrefix(study, trial) + "/" <= k
  {
    CoveredByPair(TrialKey(study, trial) + "/", TrialFilesPrefix(study, trial) + "/");
    [TrialKey(study, trial) + "/", TrialFilesPrefix(study, trial) + "/"]
  }

  /** The separator-bounded delete spares sibling trials: a key of trial
      `t'`, or below it, or below its file root, is neither the trial key of
      `t` nor under a subtree root of `t`. */
  lemma SubtreeDeleteSparesSiblings(s: string, t: string, t': string, k: string)
    requires '/' !in t && '/' !in t' && t != t'
    requires k == TrialKey(s, t') || TrialKey(s, t') + "/" <= k || TrialFilesPrefix(s, t') + "/" <= k
    ensures k != TrialKey(s, t)
    ensures !Covered(k, SubtreeRoots(s, t))
  {
    var roots := SubtreeRoots(s, t);
    var trialBase, fileBase := "/studies/" + s + "/trials/", "/files/" + s + "/";
    assert TrialKey(s, t) == trialBase + t && TrialKey(s, t') == trialBase + t';
    assert TrialFilesPrefix(s, t) == fileBase + t && TrialFilesPrefix(s, t') == fileBase + t';
    assert roots[0][1] == 's' && roots[1][1] == 'f' && TrialKey(s, t)[1] == 's';
    if TrialFilesPrefix(s, t') + "/" <= k {
      var tail := k[|fileBase|..];
      assert t' + "/" <= tail;
      SiblingSegment(t, t', tail);
      assert roots[1] <= k ==> t + "/" <= tail;
      assert k[1] == 'f';
    } else {
      var tail := k[|trialBase|..];
      assert k == TrialKey(s, t') ==> tail == t';
      assert TrialKey(s, t') + "/" <= k ==> t' + "/" <= tail;
      SiblingSegment(t, t', tail);
      assert k == TrialKey(s, t) ==> tail == t;
      assert roots[0] <= k ==> t + "/" <= tail;
      assert k[1] == 's';
    }
    forall p | p in roots
      ensures !(p <= k)
    {
    }
  }

  /** A trial controller: the server's host and the shared `studies` bucket. */
  class TrialController {
    const host: string
    const studies: Bucket<Bytes>

    constructor (host: string, studies: Bucket<Bytes>)
      ensures this.host == host && this.studies == studies
    {
      this.host := host;
      this.studies := studies;
    }

    /** Stores the payload under the resource's own id, replacing any earlier
        value; no other key changes. */
    method Post(id: string, data: Bytes, faults: Faults) returns (r: Reply<()>)
      modifies studies
      ensures r.Ok? <==> Write(studies.name, id) !in faults
      ensures !r.NotFound?
      ensures r.Ok? ==> studies.items == old(studies.items)[id := data]
      ensures r.StoreError? ==> studies.items == old(studies.items)
    {
      var ok := studies.Put(id, data, faults);
      if !ok {
        return StoreError;
      }
      r := Ok(());
    }

    /** One resource per stored key under the study's trial prefix, in
        ascending key order, each carrying its key as id and its stored value
        as data. */
    method List(study: string, faults: Faults) returns (r: Reply<seq<Resource>>)
      ensures r.StoreError? <==> ScanPrefix(studies.name, TrialsPrefix(study)) in faults
      ensures !r.NotFound?
      ensures r.Ok? ==> |r.value| == |Matching(studies.items, TrialsPrefix(study))|
      ensures r.Ok? ==> forall i :: 0 <= i < |r.value| ==>
                var id := r.value[i].id;
                && id in studies.items && TrialsPrefix(study) <= id
                && r.value[i] == Resource("1", "trial", id, "http://" + host + id, Some(studies.items[id]), "")
      ensures r.Ok? ==> forall i, j :: 0 <= i < j < |r.value| ==> Less(r.value[i].id, r.value[j].id)
      ensures r.Ok? ==> forall k :: k in studies.items && TrialsPrefix(study) <= k ==>
                exists i :: 0 <= i < |r.value| && r.value[i].id == k
      ensures r.Ok? && Matching(studies.items, TrialsPrefix(study)) == {} ==> r.value == []
    {
      var prefix := TrialsPrefix(study);
      var scan := studies.PrefixItems(prefix, faults);
      if scan.Failure? {
        return StoreError;
      }
      var items := scan.value;
      EntriesOfIsListing(studies.items, Matching(studies.items, prefix));
      var resources: seq<Resource> := [];
      for i := 0 to |items|
        invariant |resources| == i
        invariant forall j :: 0 <= j < i ==> resources[j] == TrialResource(host, items[j])
      {
        resources := resources + [TrialResource(host, items[i])];
      }
      forall k | k in studies.items && prefix <= k
        ensures exists i :: 0 <= i < |resources| && resources[i].id == k
      {
        assert k in KeysOf(items);
        var i :| 0 <= i < |items| && KeysOf(items)[i] == k;
        assert resources[i].id == k;
      }
      forall i, j | 0 <= i < j < |resources|
        ensures Less(resources[i].id, resources[j].id)
      {
        assert resources[i].id == KeysOf(items)[i] && resources[j].id == KeysOf(items)[j];
      }
      forall i | 0 <= i < |resources|
        ensures prefix <= resources[i].id
      {
        assert resources[i].id == KeysOf(items)[i];
        assert KeysOf(items)[i] in KeysOf(items);
      }
      r := Ok(resources);
    }

    /** The stored payload of trial `trial` of study `study`; an absent key is
        "not found", distinct from a store error. */
    method Get(study: string, trial: string, faults: Faults) returns (r: Reply<Bytes>)
      ensures r.StoreError? <==> Read(studies.name, TrialKey(study, trial)) in faults
      ensures r.NotFound? <==> Read(studies.name, TrialKey(study, trial)) !in faults && TrialKey(study, trial) !in studies.items
      ensures r.Ok? ==> TrialKey(study, trial) in studies.items && r.value == studies.items[TrialKey(study, trial)]
    {
      var id := TrialKey(study, trial);
      var got := studies.Get(id, faults);
      if got.Failure? {
        return StoreError;
      }
      if got.value.None? {
        return NotFound;
      }
      r := Ok(got.value.value);
    }

    /** Deletes every key under the trial key and every key under the trial's
        alternate file root, root after root. */
    method Delete(study: string, trial: string, faults: Faults) returns (r: Reply<()>)
      modifies studies
      ensures !r.NotFound?
      ensures var roots := DeleteRoots(study, trial);
              var done := Reached(roots, studies.name, faults);
              && studies.items == Pruned(old(studies.items), done, studies.name, faults)
              && (r.StoreError? <==> CascadeFails(old(studies.items), roots, studies.name, faults))
      ensures forall k :: k in old(studies.items) && !Covered(k, DeleteRoots(study, trial)) ==>
                k in studies.items && studies.items[k] == old(studies.items)[k]
      ensures studies.items.Keys <= old(studies.items).Keys
      ensures r.Ok? ==> forall k :: k in studies.items ==>
                !(TrialKey(study, trial) <= k) && !(TrialFilesPrefix(study, trial) <= k)
    {
      ghost var m0, name := studies.items, studies.name;
      var roots := DeleteRoots(study, trial);
      r := Cascade(roots, faults);
      ghost var done := Reached(roots, studies.name, faults);
      forall k
        ensures Covered(k, done) ==> Covered(k, roots)
      {
        CoveredWithin(k, done, roots);
      }
      assert TrialKey(study, trial) in roots && TrialFilesPrefix(study, trial) in roots;
      if r.Ok? {
        assert done == roots;
        forall k | k in studies.items
          ensures !(TrialKey(study, trial) <= k) && !(TrialFilesPrefix(study, trial) <= k)
        {
          assert Covered(k, roots) ==> k in Stuck(m0, roots, name, faults);
        }
      }
    }

    /** The separator-bounded delete: the trial key itself, then everything
        below it and below the trial's file root. */
    method DeleteSubtree(study: string, trial: string, faults: Faults) returns (r: Reply<()>)
      modifies studies
      ensures !r.NotFound?
      ensures var key := TrialKey(study, trial);
              var first := if Remove(studies.name, key) in faults then old(studies.items) else old(studies.items) - {key};
              var roots := SubtreeRoots(study, trial);
              && studies.items == Pruned(first, Reached(roots, studies.name, faults), studies.name, faults)
              && (r.StoreError? <==> Remove(studies.name, key) in faults || CascadeFails(first, roots, studies.name, faults))
    {
      var ok := studies.Delete(TrialKey(study, trial), faults);
      r := Cascade(SubtreeRoots(study, trial), faults);
      if !ok {
        r := StoreError;
      }
    }

    /** Scans each root in turn and deletes every key the scan yields. A
        failed scan ends the cascade; a failed removal is remembered and the
        cascade goes on. */
    method Cascade(roots: seq<string>, faults: Faults) returns (r: Reply<()>)
      modifies studies
      ensures !r.NotFound?
      ensures studies.items == Pruned(old(studies.items), Reached(roots, studies.name, faults), studies.name, faults)
      ensures r.StoreError? <==> CascadeFails(old(studies.items), roots, studies.name, faults)
    {
      ghost var m0, name := studies.items, studies.name;
      var failed := false;
      var i := 0;
      while i < |roots|
        invariant 0 <= i <= |roots|
        invariant forall j :: 0 <= j < i ==> ScanPrefix(name, roots[j]) !in faults
        invariant studies.items == Pruned(m0, roots[..i], name, faults)
        invariant failed <==> Stuck(m0, roots[..i], name, faults) != {}
      {
        var scan := studies.PrefixItems(roots[i], faults);
        if scan.Failure? {
          ReachedUpTo(roots, i, name, faults);
          return StoreError;
        }
        var items := scan.value;
        ghost var mi := studies.items;
        PruneStep(m0, roots[..i], roots[i], items, name, faults);
        var j := 0;
        while j < |items|
          invariant 0 <= j <= |items|
          invariant studies.items == RemoveAll(mi, KeysOf(items[..j]), name, faults)
          invariant failed <==> (Stuck(m0, roots[..i], name, faults)
                                 + RemovalFailures(KeysOf(items[..j]), name, faults) != {})
        {
          assert KeysOf(items[..j + 1]) == KeysOf(items[..j]) + [items[j].key];
          RemoveAllSnoc(mi, KeysOf(items[..j]), items[j].key, name, faults);
          var ok := studies.Delete(items[j].key, faults);
          if !ok {
            failed := true;
          }
          j := j + 1;
        }
        assert items[..j] == items;
        assert roots[..i + 1] == roots[..i] + [roots[i]];
        i := i + 1;
      }
      ReachedUpTo(roots, i, name, faults);
      assert roots[..i] == roots;
      r := if failed then StoreError else Ok(());
    }
  }
}
