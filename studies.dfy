/** The study handlers. Payloads live in the `studies` bucket (shared with the
    trial handlers) and creation timestamps in the `studylist` bucket, both
    keyed by the study's id. */
module Studies {
  import opened Order
  import opened Buckets
  import opened Resources
  import opened Keys

  /** What the payload bucket holds under `key`, as the listing attaches it. */
  function Lookup(m: map<string, Bytes>, key: string): (r: Option<Bytes>)
    ensures r.Some? <==> key in m
    ensures r.Some? ==> r.value == m[key]
  {
    if key in m then Some(m[key]) else None
  }

  /** The record the listing builds for one studylist entry. */
  function StudyResource(host: string, item: Item<string>, data: Option<Bytes>): Resource
  {
    Resource(Version, "study", item.key, Url(host, item.key), data, item.value)
  }

  /** A listing of a whole map names every key of the map, each at one
      position, ascending. */
  lemma ListingCovers<V>(m: map<string, V>, r: seq<Item<V>>)
    requires IsListing(m, m.Keys, r)
    ensures forall i :: 0 <= i < |r| ==> r[i].key in m && r[i].value == m[r[i].key]
    ensures forall i, j :: 0 <= i < j < |r| ==> Less(r[i].key, r[j].key)
    ensures forall k :: k in m ==> exists i :: 0 <= i < |r| && r[i].key == k
  {
    forall i, j | 0 <= i < j < |r|
      ensures Less(r[i].key, r[j].key)
    {
      assert KeysOf(r)[i] == r[i].key && KeysOf(r)[j] == r[j].key;
    }
    forall k | k in m
      ensures exists i :: 0 <= i < |r| && r[i].key == k
    {
      assert k in KeysOf(r);
      var i :| 0 <= i < |r| && KeysOf(r)[i] == k;
      assert r[i].key == k;
    }
  }

  /** A study controller: the server's host, the payload bucket and the
      bucket of creation timestamps (their text). */
  class StudyController {
    const host: string
    const studies: Bucket<Bytes>
    const studylist: Bucket<string>

    constructor (host: string, studies: Bucket<Bytes>, studylist: Bucket<string>)
      ensures this.host == host && this.studies == studies && this.studylist == studylist
    {
      this.host := host;
      this.studies := studies;
      this.studylist := studylist;
    }

    /** Records the creation time `now` in the studylist and the payload in
        the payload bucket, both under the study's id, with no existence
        check: a second post of the same id replaces both. A failure of the
        studylist write is not reported. */
    method Post(id: string, data: Bytes, now: string, faults: Faults) returns (r: Reply<()>)
      modifies studies, studylist
      ensures r.StoreError? <==> Write(studies.name, id) in faults
      ensures !r.NotFound?
      ensures studylist.items
           == if Write(studylist.name, id) in faults then old(studylist.items) else old(studylist.items)[id := now]
      ensures studies.items
           == if Write(studies.name, id) in faults then old(studies.items) else old(studies.items)[id := data]
    {
      var _ := studylist.Put(id, now, faults);
      var ok := studies.Put(id, data, faults);
      r := if ok then Ok(()) else StoreError;
    }

    /** Post as evidently intended: a failed studylist write is reported too,
        so a successful reply means the study is both stored and listed. */
    method PostChecked(id: string, data: Bytes, now: string, faults: Faults) returns (r: Reply<()>)
      modifies studies, studylist
      ensures r.StoreError? <==> Write(studylist.name, id) in faults || Write(studies.name, id) in faults
      ensures !r.NotFound?
      ensures r.Ok? ==> studylist.items == old(studylist.items)[id := now]
      ensures r.Ok? ==> studies.items == old(studies.items)[id := data]
      ensures studylist.items
           == if Write(studylist.name, id) in faults then old(studylist.items) else old(studylist.items)[id := now]
      ensures studies.items
           == if Write(studies.name, id) in faults then old(studies.items) else old(studies.items)[id := data]
    {
      var listed := studylist.Put(id, now, faults);
      var ok := studies.Put(id, data, faults);
      r := if listed && ok then Ok(()) else StoreError;
    }

    /** One resource per studylist entry, in studylist key order, carrying the
        entry's timestamp as its creation time and whatever the payload bucket
        holds under the same key as its data. */
    method List(faults: Faults) returns (r: Reply<seq<Resource>>)
      ensures r.StoreError? <==>
                ScanAll(studylist.name) in faults || exists k :: k in studylist.items && Read(studies.name, k) in faults
      ensures !r.NotFound?
      ensures r.Ok? ==> |r.value| == |studylist.items|
      ensures r.Ok? ==> forall i :: 0 <= i < |r.value| ==>
                var id := r.value[i].id;
                && id in studylist.items
                && r.value[i] == Resource("1", "study", id, "http://" + host + id, Lookup(studies.items, id), studylist.items[id])
      ensures r.Ok? ==> forall i, j :: 0 <= i < j < |r.value| ==> Less(r.value[i].id, r.value[j].id)
      ensures r.Ok? ==> forall k :: k in studylist.items ==> exists i :: 0 <= i < |r.value| && r.value[i].id == k
    {
      var all := studylist.Items(faults);
      // A failed scan still goes on, over no entries, before the error is reported.
      var items := if all.Success? then all.value else [];
      if all.Success? {
        EmptyPrefixMatchesAll(studylist.items);
        EntriesOfIsListing(studylist.items, studylist.items.Keys);
        ListingCovers(studylist.items, items);
      }
      var resources, failed := Attach(items, faults);
      if all.Failure? || failed {
        return StoreError;
      }
      r := Ok(resources);
    }

    /** The per-entry loop of the listing: looks each entry's key up in the
        payload bucket; a failed lookup leaves the data absent and marks the
        listing as failed. */
    method Attach(items: seq<Item<string>>, faults: Faults) returns (resources: seq<Resource>, failed: bool)
      ensures |resources| == |items|
      ensures failed <==> exists j :: 0 <= j < |items| && Read(studies.name, items[j].key) in faults
      ensures forall j :: 0 <= j < |items| && Read(studies.name, items[j].key) !in faults ==>
                resources[j] == StudyResource(host, items[j], Lookup(studies.items, items[j].key))
    {
      failed := false;
      resources := [];
      for i := 0 to |items|
        invariant |resources| == i
        invariant forall j :: 0 <= j < i && Read(studies.name, items[j].key) !in faults ==>
                    resources[j] == StudyResource(host, items[j], Lookup(studies.items, items[j].key))
        invariant failed <==> exists j :: 0 <= j < i && Read(studies.name, items[j].key) in faults
      {
        var got := studies.Get(items[i].key, faults);
        if got.Failure? {
          failed := true;
        }
        var data := if got.Success? then got.value else None;
        resources := resources + [StudyResource(host, items[i], data)];
      }
    }

    /** The stored payload of study `name`; an absent key is "not found". */
    method Get(name: string, faults: Faults) returns (r: Reply<Bytes>)
      ensures r.StoreError? <==> Read(studies.name, StudyKey(name)) in faults
      ensures r.NotFound? <==> Read(studies.name, StudyKey(name)) !in faults && StudyKey(name) !in studies.items
      ensures r.Ok? ==> StudyKey(name) in studies.items && r.value == studies.items[StudyKey(name)]
    {
      var got := studies.Get(StudyKey(name), faults);
      if got.Failure? {
        return StoreError;
      }
      if got.value.None? {
        return NotFound;
      }
      r := Ok(got.value.value);
    }

    /** Removes the study's payload key only: its studylist entry and the
        keys of its trials and files stay. */
    method Delete(name: string, faults: Faults) returns (r: Reply<()>)
      modifies studies
      ensures r.StoreError? <==> Remove(studies.name, StudyKey(name)) in faults
      ensures !r.NotFound?
      ensures studies.items
           == if r.StoreError? then old(studies.items) else old(studies.items) - {StudyKey(name)}
      ensures studylist.items == old(studylist.items)
      ensures '/' !in name ==> forall t :: TrialKey(name, t) in old(studies.items) ==>
                TrialKey(name, t) in studies.items && studies.items[TrialKey(name, t)] == old(studies.items)[TrialKey(name, t)]
    {
      var ok := studies.Delete(StudyKey(name), faults);
      r := if ok then Ok(()) else StoreError;
      if '/' !in name {
        forall t | TrialKey(name, t) in old(studies.items)
          ensures TrialKey(name, t) in studies.items
        {
          StudyKeyIsNotTrialKey(name, name, t);
        }
      }
    }
  }
}
