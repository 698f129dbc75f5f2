/** Request sequences on fresh, empty buckets, as the handlers' test drives
    them, with their outcomes stated outright. */
module Scenarios {
  import opened Order
  import opened Buckets
  import opened Resources
  import opened Keys
  import opened Studies
  import opened Trial

  /** Post one study, list, then get it by name: the listing has exactly one
      item, at the URL built from the host and the id, and the get returns the
      posted payload. */
  method PostListGet(payload: Bytes, now: string) returns (count: nat, url: string, fetched: Reply<Bytes>)
    ensures count == 1
    ensures url == "http://localhost:8081/studies/test_study"
    ensures fetched == Ok(payload)
  {
    var studies := new Bucket<Bytes>("studies");
    var studylist := new Bucket<string>("studylist");
    var c := new StudyController("localhost:8081", studies, studylist);
    var id := "/studies/test_study";
    assert "http://" + "localhost:8081" + id == "http://localhost:8081/studies/test_study";
    var _ := c.Post(id, payload, now, {});
    assert studylist.items == map[id := now];
    var listed := c.List({});
    assert listed.Ok? && |listed.value| == 1;
    assert listed.value[0].id in studylist.items;
    assert listed.value[0].id == id;
    count := |listed.value|;
    url := listed.value[0].url;
    assert StudyKey("test_study") == id;
    fetched := c.Get("test_study", {});
  }

  /** Deleting a study leaves its studylist entry: a later listing still
      yields the study, with its creation time and no data. */
  method DeleteKeepsListing(payload: Bytes, now: string) returns (listed: Reply<seq<Resource>>)
    ensures listed == Ok([Resource("1", "study", "/studies/S1", "http://localhost:8081/studies/S1", None, now)])
  {
    var studies := new Bucket<Bytes>("studies");
    var studylist := new Bucket<string>("studylist");
    var c := new StudyController("localhost:8081", studies, studylist);
    var id := "/studies/S1";
    assert "http://" + "localhost:8081" + id == "http://localhost:8081/studies/S1";
    assert StudyKey("S1") == id;
    var _ := c.Post(id, payload, now, {});
    var _ := c.Delete("S1", {});
    assert studylist.items == map[id := now] && id !in studies.items;
    listed := c.List({});
    assert listed.value[0].id == id;
    assert listed.value == [listed.value[0]];
  }

  /** A study post whose studylist write fails still replies success: the
      payload is stored and can be fetched, but the listing does not name it. */
  method LostStudylistEntry(payload: Bytes, now: string) returns (posted: Reply<()>, listed: Reply<seq<Resource>>, fetched: Reply<Bytes>)
    ensures posted.Ok?
    ensures listed == Ok([])
    ensures fetched == Ok(payload)
  {
    var studies := new Bucket<Bytes>("studies");
    var studylist := new Bucket<string>("studylist");
    var c := new StudyController("localhost:8081", studies, studylist);
    var faults := {Write("studylist", "/studies/lost")};
    posted := c.Post("/studies/lost", payload, now, faults);
    listed := c.List(faults);
    assert StudyKey("lost") == "/studies/lost";
    fetched := c.Get("lost", faults);
  }

  /** With the checked post, a success reply on fresh buckets means the study
      is listed, whatever else fails, as long as the listing itself can read
      the buckets. */
  method CheckedPostIsListed(id: string, payload: Bytes, now: string, faults: Faults)
    returns (posted: Reply<()>, listed: Reply<seq<Resource>>)
    requires ScanAll("studylist") !in faults && Read("studies", id) !in faults
    ensures posted.Ok? ==> listed.Ok? && |listed.value| == 1
    ensures posted.Ok? ==> listed.value[0] == Resource("1", "study", id, "http://localhost:8081" + id, Some(payload), now)
    ensures posted.StoreError? <==> Write("studylist", id) in faults || Write("studies", id) in faults
  {
    var studies := new Bucket<Bytes>("studies");
    var studylist := new Bucket<string>("studylist");
    var c := new StudyController("localhost:8081", studies, studylist);
    posted := c.PostChecked(id, payload, now, faults);
    listed := c.List(faults);
    if posted.Ok? {
      assert studylist.items.Keys == {id};
      assert listed.value == [listed.value[0]];
    }
  }

  /** Two trials of one study whose ids differ by a suffix (T1 and T10, say)
      list in key order, the shorter id first, whichever was posted first. */
  method ListTwoTrials(s: string, t: string, suffix: string, v: Bytes, w: Bytes, longFirst: bool) returns (ids: seq<string>)
    requires |suffix| > 0
    ensures ids == [TrialKey(s, t), TrialKey(s, t + suffix)]
  {
    var short, long := TrialKey(s, t), TrialKey(s, t + suffix);
    assert long == short + suffix;
    assert short < long;
    PrefixSortsFirst(short, long);
    LessAsymmetric(short, long);
    LessIrreflexive(short);
    LessIrreflexive(long);
    var studies := new Bucket<Bytes>("studies");
    var c := new TrialController("localhost:8081", studies);
    if longFirst {
      var _ := c.Post(long, w, {});
      var _ := c.Post(short, v, {});
    } else {
      var _ := c.Post(short, v, {});
      var _ := c.Post(long, w, {});
    }
    assert Matching(studies.items, TrialsPrefix(s)) == {short, long};
    var listed := c.List(s, {});
    var a, b := listed.value[0].id, listed.value[1].id;
    assert a in {short, long} && b in {short, long} && Less(a, b);
    ids := [a, b];
  }

  /** The separator-bounded delete of trial `t` removes its key and keeps a
      sibling trial `t2` (T10 beside T1, say) and the sibling's file. */
  method SubtreeDeleteKeepsSibling(s: string, t: string, t2: string, f: string, v: Bytes, w: Bytes, x: Bytes)
    returns (kept: set<string>)
    requires '/' !in t && '/' !in t2 && t != t2
    ensures kept == {TrialKey(s, t2), TrialFilesPrefix(s, t2) + "/" + f}
  {
    var sibling, file, key := TrialKey(s, t2), TrialFilesPrefix(s, t2) + "/" + f, TrialKey(s, t);
    assert TrialFilesPrefix(s, t2) + "/" <= file;
    assert sibling[1] == 's' && file[1] == 'f';
    SubtreeDeleteSparesSiblings(s, t, t2, sibling);
    SubtreeDeleteSparesSiblings(s, t, t2, file);
    var roots := SubtreeRoots(s, t);
    var studies := new Bucket<Bytes>("studies");
    var c := new TrialController("localhost:8081", studies);
    var _ := c.Post(sibling, v, {});
    var _ := c.Post(file, w, {});
    var _ := c.Post(key, x, {});
    assert studies.items.Keys == {sibling, file, key};
    var _ := c.DeleteSubtree(s, t, {});
    CoveredWithin(sibling, Reached(roots, "studies", {}), roots);
    CoveredWithin(file, Reached(roots, "studies", {}), roots);
    kept := studies.items.Keys;
  }
}
