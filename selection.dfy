/** First-match-wins selection: the first configuration, in declared order,
    that matches an item decides for it; items no configuration matches are
    skipped without error. Used for repository policies, clusters and
    task-definition families. */
module Selection {
  import opened Wrappers
  import opened Seqs

  /** The index of the first item satisfying `m`, if any. */
  function FirstIndex<T>(items: seq<T>, m: T -> bool): (r: Option<nat>)
    ensures r.Some? ==> r.value < |items| && m(items[r.value])
                        && forall k :: 0 <= k < r.value ==> !m(items[k])
    ensures r.None? ==> forall k :: 0 <= k < |items| ==> !m(items[k])
  {
    if |items| == 0 then None
    else if m(items[0]) then Some(0)
    else match FirstIndex(items[1..], m)
      case None => None
      case Some(k) => Some(k + 1)
  }

  /** The loop `for _, c := range configs { if c.Match(x) { ...; break } }`. */
  method FirstMatch<T>(items: seq<T>, m: T -> bool) returns (r: Option<nat>)
    ensures r == FirstIndex(items, m)
  {
    var i := 0;
    while i < |items|
      invariant 0 <= i <= |items|
      invariant forall k :: 0 <= k < i ==> !m(items[k])
    {
      if m(items[i]) {
        return Some(i);
      }
      i := i + 1;
    }
    return None;
  }

  /** A cluster selector. */
  datatype ClusterConfig = ClusterConfig(matches: string -> bool)

  /** A task-definition family selector with the number of latest revisions
      to keep. */
  datatype TaskdefConfig = TaskdefConfig(matches: string -> bool, keepCount: int)

  function ClusterRule(a: string): ClusterConfig -> bool
  {
    (cc: ClusterConfig) => cc.matches(a)
  }

  function TaskdefRule(family: string): TaskdefConfig -> bool
  {
    (tc: TaskdefConfig) => tc.matches(family)
  }

  /** A cluster is scanned when some selector matches its ARN and the ARN is
      not empty (the loop uses the empty string for "none matched"). */
  predicate ClusterSelected(ccs: seq<ClusterConfig>, a: string)
  {
    a != "" && FirstIndex(ccs, ClusterRule(a)).Some?
  }

  function ClusterSelectedRule(ccs: seq<ClusterConfig>): string -> bool
  {
    (a: string) => ClusterSelected(ccs, a)
  }

  /** The cluster loop of `scanClusters`: the clusters whose resources are
      collected, in listing order. */
  method SelectClusters(clusterArns: seq<string>, ccs: seq<ClusterConfig>) returns (selected: seq<string>)
    ensures selected == Filter(clusterArns, ClusterSelectedRule(ccs))
  {
    selected := [];
    for i := 0 to |clusterArns|
      invariant selected == Filter(clusterArns[..i], ClusterSelectedRule(ccs))
    {
      assert clusterArns[..i + 1][..i] == clusterArns[..i];
      var a := clusterArns[i];
      var k := FirstMatch(ccs, ClusterRule(a));
      var clusterArn := if k.Some? then a else "";
      if clusterArn == "" {
        continue;
      }
      selected := selected + [clusterArn];
    }
    assert clusterArns[..|clusterArns|] == clusterArns;
  }

  /** A cluster is scanned exactly when it is listed, its ARN is not empty
      and at least one selector matches it. */
  lemma ClusterSelection(clusterArns: seq<string>, ccs: seq<ClusterConfig>, a: string)
    ensures a in Filter(clusterArns, ClusterSelectedRule(ccs))
        <==> a in clusterArns && a != "" && exists k :: 0 <= k < |ccs| && ccs[k].matches(a)
  {
    FilterMembers(clusterArns, ClusterSelectedRule(ccs), a);
  }

  /** The families whose latest revisions are kept, each with the keep count
      of the first selector that matches it, in listing order. */
  function SelectedFamilies(families: seq<string>, tcs: seq<TaskdefConfig>): seq<(string, int)>
  {
    if |families| == 0 then []
    else
      var family := families[|families| - 1];
      SelectedFamilies(families[..|families| - 1], tcs)
      + match FirstIndex(tcs, TaskdefRule(family))
        case Some(k) => if family == "" then [] else [(family, tcs[k].keepCount)]
        case None => []
  }

  /** The family loop of `collectTaskdefs`, up to the revision listing. */
  method SelectFamilies(families: seq<string>, tcs: seq<TaskdefConfig>) returns (selected: seq<(string, int)>)
    ensures selected == SelectedFamilies(families, tcs)
  {
    selected := [];
    for i := 0 to |families|
      invariant selected == SelectedFamilies(families[..i], tcs)
    {
      assert families[..i + 1][..i] == families[..i];
      var family := families[i];
      var name, keepCount := "", 0;
      var k := FirstMatch(tcs, TaskdefRule(family));
      if k.Some? {
        name, keepCount := family, tcs[k.value].keepCount;
      }
      if name == "" {
        continue;
      }
      selected := selected + [(name, keepCount)];
    }
    assert families[..|families|] == families;
  }

  /** A family is selected exactly when it is listed, not empty and matched,
      and its keep count is that of the first matching selector, not of a
      later one. */
  lemma {:induction false} SelectedFamiliesMembers(families: seq<string>, tcs: seq<TaskdefConfig>,
                                                   family: string, keepCount: int)
    ensures (family, keepCount) in SelectedFamilies(families, tcs)
        <==> family in families && family != ""
             && exists k :: 0 <= k < |tcs| && tcs[k].matches(family) && tcs[k].keepCount == keepCount
                            && forall j :: 0 <= j < k ==> !tcs[j].matches(family)
  {
    if |families| > 0 {
      var init, last := families[..|families| - 1], families[|families| - 1];
      assert families == init + [last];
      SelectedFamiliesMembers(init, tcs, family, keepCount);
      var fi := FirstIndex(tcs, TaskdefRule(last));
      if last == family && family != "" && exists k :: 0 <= k < |tcs| && tcs[k].matches(family) && tcs[k].keepCount == keepCount
                                                        && forall j :: 0 <= j < k ==> !tcs[j].matches(family) {
        var k :| 0 <= k < |tcs| && tcs[k].matches(family) && tcs[k].keepCount == keepCount
                 && forall j :: 0 <= j < k ==> !tcs[j].matches(family);
        assert TaskdefRule(last)(tcs[k]);
        assert fi == Some(k);
      }
    }
  }
}
