/** How the resource tree is laid out in the flat keyspace: study keys, the
    trial keys under them, and the separate root for trial-scoped files. */
module Keys {

  /** The key of study `name`. */
  function StudyKey(name: string): (k: string)
    ensures "/studies/" <= k && k[|"/studies/"|..] == name
  {
    "/studies/" + name
  }

  /** The prefix that lists the trials of `study`; there is no separator
      after `trials`. */
  function TrialsPrefix(study: string): (p: string)
    ensures StudyKey(study) + "/" <= p
  {
    StudyKey(study) + "/trials"
  }

  /** The key of trial `trial` of study `study`. */
  function TrialKey(study: string, trial: string): (k: string)
    ensures StudyKey(study) + "/" <= k
    ensures TrialsPrefix(study) <= k
  {
    StudyKey(study) + "/trials/" + trial
  }

  /** The alternate root under which a trial's files are filed. It lies
      outside the subtree of every study key. */
  function TrialFilesPrefix(study: string, trial: string): (p: string)
    ensures forall name :: !(StudyKey(name) <= p)
  {
    var p := "/files/" + study + "/" + trial;
    assert p[1] == 'f';
    p
  }

  /** Inside a slash-free leading segment of `k` there is no slash. */
  lemma NoSlashWithin(b: string, k: string)
    requires '/' !in b && b <= k
    ensures forall i :: 0 <= i < |b| ==> k[i] != '/'
  {
    forall i | 0 <= i < |b|
      ensures k[i] != '/'
    {
      assert k[i] == b[i];
    }
  }

  /** A key starts with `a` followed by a slash only if it has a slash
      right after `a`. */
  lemma SlashAfter(a: string, k: string)
    ensures a + "/" <= k ==> |a| < |k| && k[|a|] == '/'
  {
  }

  /** Two slash-free segments that are both followed by a slash at the start
      of the same key are equal. */
  lemma SegmentsAgree(a: string, b: string, k: string)
    requires '/' !in a && '/' !in b
    ensures a + "/" <= k && b + "/" <= k ==> a == b
  {
    if a + "/" <= k && b + "/" <= k {
      NoSlashWithin(a, k);
      NoSlashWithin(b, k);
      assert k[|a|] == '/' && k[|b|] == '/';
      assert |a| == |b|;
      assert a == k[..|a|];
    }
  }

  /** A segment that is a sibling `t'` (or begins with `t'` and a slash) is
      neither the slash-free id `t` nor begins with `t` and a slash. */
  lemma SiblingSegment(t: string, t': string, tail: string)
    requires '/' !in t && '/' !in t' && t != t'
    requires tail == t' || t' + "/" <= tail
    ensures tail != t
    ensures !(t + "/" <= tail)
  {
    SegmentsAgree(t, t', tail);
    SlashAfter(t, tail);
    SlashAfter(t', tail);
    assert t' <= tail;
    NoSlashWithin(t', tail);
  }

  /** A trial key names one study and one trial when the study id has no
      slash. */
  lemma TrialKeyInjective(s: string, t: string, s': string, t': string)
    requires '/' !in s && '/' !in s'
    requires TrialKey(s, t) == TrialKey(s', t')
    ensures s == s' && t == t'
  {
    var k := TrialKey(s, t);
    var rest := k[|"/studies/"|..];
    assert rest == s + "/trials/" + t == s' + "/trials/" + t';
    assert s + "/" <= rest && s' + "/" <= rest;
    SegmentsAgree(s, s', rest);
    var n := |"/studies/" + s + "/trials/"|;
    assert t == k[n..] == t';
  }

  /** The trial listing scope of one study never reaches the keys of another
      study (study "S1" against study "S10"). */
  lemma TrialsScopeIsPerStudy(s: string, s': string, k: string)
    requires '/' !in s && '/' !in s'
    requires TrialsPrefix(s) <= k && StudyKey(s') + "/" <= k
    ensures s == s'
  {
    var rest := k[|"/studies/"|..];
    assert s + "/" <= rest;
    assert s' + "/" <= rest;
    SegmentsAgree(s, s', rest);
  }

  /** A slash-free study key is never a trial key, so removing the one never
      touches the other. */
  lemma StudyKeyIsNotTrialKey(name: string, s: string, t: string)
    requires '/' !in name
    ensures StudyKey(name) != TrialKey(s, t)
  {
    var k, n := TrialKey(s, t), 9 + |s|;
    if |StudyKey(name)| == |k| {
      assert k[n] == '/';
      assert StudyKey(name)[n] == name[|s|] != '/';
    }
  }

  /** Without a slash rule, different (study, trial) pairs share a key. */
  lemma TrialKeyAmbiguousWithSlashes()
    ensures TrialKey("a/trials/b", "c") == TrialKey("a", "b/trials/c")
    ensures StudyKey("a/trials/b") == TrialKey("a", "b")
  {
  }
}
