/** The validators of volume placement strategies: they group the nodes that hold replicas by the
    value of a volume label, and judge each group. */
module VolumePlacement {

  datatype Volume = Volume(replicaSets: seq<seq<string>>, labels: map<string, string>)

  /** `nil`, or the reason for the error: a node met twice under one label value, or a label value
      with the wrong number of nodes. */
  datatype Verdict =
    | Valid
    | Duplicated(value: string, node: string)
    | WrongCount(value: string, nodes: seq<string>)

  // ----- what a placement is -----

  /** A label value and a node that holds a replica of a volume with that value. */
  datatype Replica = Replica(value: string, node: string)

  function Concat(lists: seq<seq<string>>): seq<string> {
    if lists == [] then [] else Concat(lists[..|lists| - 1]) + lists[|lists| - 1]
  }

  /** A missing label reads as the empty string. */
  function LabelValue(vol: Volume, key: string): string {
    if key in vol.labels then vol.labels[key] else ""
  }

  function Tagged(value: string, nodes: seq<string>): seq<Replica> {
    seq(|nodes|, i requires 0 <= i < |nodes| => Replica(value, nodes[i]))
  }

  function Replicas(vols: seq<Volume>, key: string): seq<Replica> {
    if vols == [] then []
    else
      var last := vols[|vols| - 1];
      Replicas(vols[..|vols| - 1], key) + Tagged(LabelValue(last, key), Concat(last.replicaSets))
  }

  /** The nodes of the replicas that carry a label value, in order, with repetitions. */
  function NodesOf(replicas: seq<Replica>, value: string): seq<string> {
    if replicas == [] then []
    else
      var last := replicas[|replicas| - 1];
      NodesOf(replicas[..|replicas| - 1], value) + (if last.value == value then [last.node] else [])
  }

  function Placed(vols: seq<Volume>, key: string, value: string): seq<string> {
    NodesOf(Replicas(vols, key), value)
  }

  ghost predicate Distinct(s: seq<string>) {
    forall i, j | 0 <= i < j < |s| :: s[i] != s[j]
  }

  ghost predicate AllEqual(s: seq<string>) {
    forall i, j | 0 <= i < j < |s| :: s[i] == s[j]
  }

  /** Every label value in use is on exactly `expected` nodes, with one replica on each. */
  ghost predicate AntiAffine(vols: seq<Volume>, key: string, expected: int) {
    forall value | Placed(vols, key, value) != [] ::
      Distinct(Placed(vols, key, value)) && |Placed(vols, key, value)| == expected
  }

  /** All replicas of a label value are on one node. */
  ghost predicate Affine(vols: seq<Volume>, key: string) {
    forall value :: AllEqual(Placed(vols, key, value))
  }

  ghost predicate OnlyOn(vols: seq<Volume>, node: string) {
    forall i | 0 <= i < |vols| :: forall n | n in Concat(vols[i].replicaSets) :: n == node
  }

  // ----- the loops -----

  /** `getNodePlacement`. */
  method GetNodePlacement(vol: Volume) returns (nodeList: seq<string>)
    ensures nodeList == Concat(vol.replicaSets)
  {
    nodeList := [];
    var i := 0;
    while i < |vol.replicaSets|
      invariant 0 <= i <= |vol.replicaSets|
      invariant nodeList == Concat(vol.replicaSets[..i])
    {
      assert vol.replicaSets[..i + 1][..i] == vol.replicaSets[..i];
      nodeList := nodeList + vol.replicaSets[i];
      i := i + 1;
    }
    assert vol.replicaSets[..i] == vol.replicaSets;
  }

  /** What a Go map of slices reads at a key. */
  function At(m: map<string, seq<string>>, value: string): seq<string> {
    if value in m then m[value] else []
  }

  ghost predicate Groups(m: map<string, seq<string>>, replicas: seq<Replica>) {
    && (forall value :: At(m, value) == NodesOf(replicas, value))
    && (forall value | value in m :: m[value] != [])
  }

  lemma NodesOfPush(replicas: seq<Replica>, r: Replica, value: string)
    ensures NodesOf(replicas + [r], value) == NodesOf(replicas, value) + (if r.value == value then [r.node] else [])
  {
    assert (replicas + [r])[..|replicas|] == replicas;
  }

  lemma NodesOfPrefix(replicas: seq<Replica>, more: seq<Replica>, value: string)
    ensures NodesOf(replicas, value) <= NodesOf(replicas + more, value)
    decreases |more|
  {
    if more == [] {
      assert replicas + more == replicas;
    } else {
      var init, last := more[..|more| - 1], more[|more| - 1];
      NodesOfPrefix(replicas, init, value);
      NodesOfPush(replicas + init, last, value);
      assert replicas + more == (replicas + init) + [last];
    }
  }

  lemma ReplicasPush(vols: seq<Volume>, i: nat, key: string)
    requires i < |vols|
    ensures Replicas(vols[..i + 1], key) ==
            Replicas(vols[..i], key) + Tagged(LabelValue(vols[i], key), Concat(vols[i].replicaSets))
  {
    assert vols[..i + 1][..i] == vols[..i];
  }

  lemma {:induction false} ReplicasPrefix(vols: seq<Volume>, i: nat, key: string)
    requires i <= |vols|
    ensures Replicas(vols[..i], key) <= Replicas(vols, key)
    decreases |vols| - i
  {
    if i < |vols| {
      ReplicasPush(vols, i, key);
      ReplicasPrefix(vols, i + 1, key);
    } else {
      assert vols[..i] == vols;
    }
  }

  lemma TaggedPush(value: string, nodes: seq<string>, j: nat)
    requires j < |nodes|
    ensures Tagged(value, nodes[..j + 1]) == Tagged(value, nodes[..j]) + [Replica(value, nodes[j])]
  {
  }

  ghost predicate AllDistinct(replicas: seq<Replica>) {
    forall value :: Distinct(NodesOf(replicas, value))
  }

  lemma GroupsPush(m: map<string, seq<string>>, done: seq<Replica>, r: Replica)
    requires Groups(m, done)
    ensures Groups(m[r.value := At(m, r.value) + [r.node]], done + [r])
  {
    hide NodesOf;
    var m' := m[r.value := At(m, r.value) + [r.node]];
    forall value ensures At(m', value) == NodesOf(done + [r], value) {
      NodesOfPush(done, r, value);
      assert At(m, value) == NodesOf(done, value);
    }
  }

  lemma DistinctPush(done: seq<Replica>, r: Replica)
    requires AllDistinct(done) && r.node !in NodesOf(done, r.value)
    ensures AllDistinct(done + [r])
  {
    hide NodesOf;
    forall value ensures Distinct(NodesOf(done + [r], value)) {
      NodesOfPush(done, r, value);
      assert Distinct(NodesOf(done, value));
    }
  }

  /** The loop over the nodes of one volume: stops at a node already in the group. */
  method AddDistinct(m: map<string, seq<string>>, ghost done: seq<Replica>, labelValue: string, nodeList: seq<string>)
    returns (m': map<string, seq<string>>, duplicate: bool, node: string, ghost upTo: nat)
    requires Groups(m, done) && AllDistinct(done)
    ensures upTo <= |nodeList|
    ensures Groups(m', done + Tagged(labelValue, nodeList[..upTo]))
    ensures AllDistinct(done + Tagged(labelValue, nodeList[..upTo]))
    ensures if duplicate then
              upTo < |nodeList| && nodeList[upTo] == node
              && node in NodesOf(done + Tagged(labelValue, nodeList[..upTo]), labelValue)
            else upTo == |nodeList|
  {
    hide NodesOf;
    m', duplicate, node, upTo := m, false, "", 0;
    ghost var sofar := done;
    assert done + Tagged(labelValue, nodeList[..0]) == done;
    var j := 0;
    while j < |nodeList|
      invariant j == upTo <= |nodeList|
      invariant sofar == done + Tagged(labelValue, nodeList[..j])
      invariant Groups(m', sofar) && AllDistinct(sofar)
    {
      node := nodeList[j];
      assert At(m', labelValue) == NodesOf(sofar, labelValue);
      if node in At(m', labelValue) {
        duplicate := true;
        return;
      }
      TaggedPush(labelValue, nodeList, j);
      GroupsPush(m', sofar, Replica(labelValue, node));
      DistinctPush(sofar, Replica(labelValue, node));
      m' := m'[labelValue := At(m', labelValue) + [node]];
      sofar := sofar + [Replica(labelValue, node)];
      j, upTo := j + 1, upTo + 1;
    }
  }

  /** The closing loop over the map: every group must have the expected number of nodes. */
  method CheckCounts(m: map<string, seq<string>>, expectedLength: int) returns (r: Verdict)
    ensures !r.Duplicated?
    ensures r.Valid? <==> forall value | value in m :: |m[value]| == expectedLength
    ensures r.WrongCount? ==> r.value in m && r.nodes == m[r.value] && |r.nodes| != expectedLength
  {
    var left := m.Keys;
    while left != {}
      invariant left <= m.Keys
      invariant forall value | value in m && value !in left :: |m[value]| == expectedLength
      decreases left
    {
      var value :| value in left;
      if |m[value]| != expectedLength {
        return WrongCount(value, m[value]);
      }
      left := left - {value};
    }
    r := Valid;
  }

  /** `ValidateVolumeAntiAffinityByNode`. */
  method ValidateVolumeAntiAffinityByNode(vols: seq<Volume>, volumeLabelKey: string, expectedLength: int)
    returns (r: Verdict)
    ensures r.Valid? <==> AntiAffine(vols, volumeLabelKey, expectedLength)
    ensures r.Duplicated? <==> exists value :: !Distinct(Placed(vols, volumeLabelKey, value))
    ensures r.Duplicated? ==>
              var nodes := Placed(vols, volumeLabelKey, r.value); !Distinct(nodes) && r.node in nodes
    ensures r.WrongCount? ==> r.nodes == Placed(vols, volumeLabelKey, r.value) != [] && |r.nodes| != expectedLength
  {
    hide NodesOf, Replicas;
    var volToNodeMap: map<string, seq<string>> := map[];
    NothingPlaced(volumeLabelKey);
    assert vols[..0] == [];
    var i := 0;
    while i < |vols|
      invariant 0 <= i <= |vols|
      invariant Groups(volToNodeMap, Replicas(vols[..i], volumeLabelKey))
      invariant AllDistinct(Replicas(vols[..i], volumeLabelKey))
    {
      var nodeList := GetNodePlacement(vols[i]);
      var labels := vols[i].labels;
      var labelValue := if volumeLabelKey in labels then labels[volumeLabelKey] else "";
      var duplicate, node;
      ghost var upTo;
      volToNodeMap, duplicate, node, upTo :=
        AddDistinct(volToNodeMap, Replicas(vols[..i], volumeLabelKey), labelValue, nodeList);
      if duplicate {
        DuplicateStays(vols, i, upTo, volumeLabelKey);
        return Duplicated(labelValue, node);
      }
      assert nodeList[..upTo] == nodeList;
      ReplicasPush(vols, i, volumeLabelKey);
      i := i + 1;
    }
    assert vols[..i] == vols;
    GroupsAre(vols, volumeLabelKey, volToNodeMap);
    r := CheckCounts(volToNodeMap, expectedLength);
  }

  lemma NothingPlaced(key: string)
    ensures Groups(map[], Replicas([], key)) && AllDistinct(Replicas([], key))
  {
  }

  /** A node met again under a label value spoils the placement for good. */
  lemma DuplicateStays(vols: seq<Volume>, i: nat, j: nat, key: string)
    requires i < |vols| && j < |Concat(vols[i].replicaSets)|
    requires var value, nodes := LabelValue(vols[i], key), Concat(vols[i].replicaSets);
             nodes[j] in NodesOf(Replicas(vols[..i], key) + Tagged(value, nodes[..j]), value)
    ensures var value, nodes := LabelValue(vols[i], key), Concat(vols[i].replicaSets);
            !Distinct(Placed(vols, key, value)) && nodes[j] in Placed(vols, key, value)
  {
    hide NodesOf, Replicas;
    var value, nodes := LabelValue(vols[i], key), Concat(vols[i].replicaSets);
    var done, all := Replicas(vols[..i], key) + Tagged(value, nodes[..j]), Replicas(vols, key);
    var r := Replica(value, nodes[j]);
    ReplicasPush(vols, i, key);
    ReplicasPrefix(vols, i + 1, key);
    assert done + [r] == Replicas(vols[..i], key) + Tagged(value, nodes)[..j + 1];
    assert done + [r] <= Replicas(vols[..i + 1], key);
    var more := all[|done| + 1..];
    assert all == done + [r] + more;
    NodesOfPush(done, r, value);
    NodesOfPrefix(done + [r], more, value);
    var before, p := NodesOf(done, value), Placed(vols, key, value);
    var k :| 0 <= k < |before| && before[k] == r.node;
    assert p[k] == r.node && p[|before|] == r.node;
  }

  lemma GroupsAre(vols: seq<Volume>, key: string, m: map<string, seq<string>>)
    requires Groups(m, Replicas(vols, key))
    ensures forall value :: value in m <==> Placed(vols, key, value) != []
    ensures forall value | value in m :: m[value] == Placed(vols, key, value)
  {
    hide NodesOf, Replicas;
    forall value ensures At(m, value) == Placed(vols, key, value) {
    }
  }

  // ----- affinity -----

  /** `m` holds, for each label value in use, its nodes without repetition. */
  ghost predicate Dedups(m: map<string, seq<string>>, replicas: seq<Replica>) {
    && (forall value :: Distinct(At(m, value)) && SameMembers(At(m, value), NodesOf(replicas, value)))
    && (forall value | value in m :: m[value] != [])
  }

  ghost predicate SameMembers(s: seq<string>, t: seq<string>) {
    forall x :: x in s <==> x in t
  }

  lemma DedupsPush(m: map<string, seq<string>>, done: seq<Replica>, r: Replica)
    requires Dedups(m, done)
    ensures var old' := At(m, r.value);
            Dedups(if r.node in old' then m else m[r.value := old' + [r.node]], done + [r])
  {
    hide NodesOf;
    var old' := At(m, r.value);
    var m' := if r.node in old' then m else m[r.value := old' + [r.node]];
    forall value ensures Distinct(At(m', value)) && SameMembers(At(m', value), NodesOf(done + [r], value)) {
      NodesOfPush(done, r, value);
      assert Distinct(At(m, value)) && SameMembers(At(m, value), NodesOf(done, value));
    }
  }

  /** The loop over the nodes of one volume: skips a node already in the group. */
  method AddOnce(m: map<string, seq<string>>, ghost done: seq<Replica>, labelValue: string, nodeList: seq<string>)
    returns (m': map<string, seq<string>>)
    requires Dedups(m, done)
    ensures Dedups(m', done + Tagged(labelValue, nodeList))
  {
    hide NodesOf;
    m' := m;
    ghost var sofar := done;
    assert done + Tagged(labelValue, nodeList[..0]) == done;
    var j := 0;
    while j < |nodeList|
      invariant 0 <= j <= |nodeList|
      invariant sofar == done + Tagged(labelValue, nodeList[..j])
      invariant Dedups(m', sofar)
    {
      var node := nodeList[j];
      TaggedPush(labelValue, nodeList, j);
      DedupsPush(m', sofar, Replica(labelValue, node));
      if !(node in At(m', labelValue)) {
        m' := m'[labelValue := At(m', labelValue) + [node]];
      }
      sofar := sofar + [Replica(labelValue, node)];
      j := j + 1;
    }
    assert nodeList[..j] == nodeList;
  }

  /** `ValidateVolumeAffinityByNode`. */
  method ValidateVolumeAffinityByNode(vols: seq<Volume>, labelKey: string) returns (r: Verdict)
    ensures !r.Duplicated?
    ensures r.Valid? <==> Affine(vols, labelKey)
    ensures r.WrongCount? ==>
              |r.nodes| > 1 && Distinct(r.nodes) && SameMembers(r.nodes, Placed(vols, labelKey, r.value))
  {
    hide NodesOf, Replicas;
    var volToNodeMap: map<string, seq<string>> := map[];
    NothingDeduped(labelKey);
    assert vols[..0] == [];
    var i := 0;
    while i < |vols|
      invariant 0 <= i <= |vols|
      invariant Dedups(volToNodeMap, Replicas(vols[..i], labelKey))
    {
      var nodeList := GetNodePlacement(vols[i]);
      var labels := vols[i].labels;
      var labelValue := if labelKey in labels then labels[labelKey] else "";
      volToNodeMap := AddOnce(volToNodeMap, Replicas(vols[..i], labelKey), labelValue, nodeList);
      ReplicasPush(vols, i, labelKey);
      i := i + 1;
    }
    assert vols[..i] == vols;
    r := CheckCounts(volToNodeMap, 1);
    DedupsAre(vols, labelKey, volToNodeMap);
  }

  lemma NothingDeduped(key: string)
    ensures Dedups(map[], Replicas([], key))
  {
  }

  lemma SingletonMeansEqual(s: seq<string>, t: seq<string>)
    requires Distinct(s) && SameMembers(s, t)
    ensures |s| <= 1 <==> AllEqual(t)
  {
    if |s| <= 1 {
      forall i, j | 0 <= i < j < |t| ensures t[i] == t[j] {
        assert t[i] in s && t[j] in s;
      }
    } else {
      assert s[0] in t && s[1] in t;
      var i :| 0 <= i < |t| && t[i] == s[0];
      var j :| 0 <= j < |t| && t[j] == s[1];
      assert i < j || j < i;
    }
  }

  lemma DedupsAre(vols: seq<Volume>, key: string, m: map<string, seq<string>>)
    requires Dedups(m, Replicas(vols, key))
    ensures (forall value | value in m :: |m[value]| == 1) <==> Affine(vols, key)
    ensures forall value | value in m ::
              Distinct(m[value]) && SameMembers(m[value], Placed(vols, key, value)) && |m[value]| > 0
  {
    hide NodesOf, Replicas;
    forall value ensures |At(m, value)| <= 1 <==> AllEqual(Placed(vols, key, value)) {
      SingletonMeansEqual(At(m, value), Placed(vols, key, value));
    }
    forall value | value in m
      ensures Distinct(m[value]) && SameMembers(m[value], Placed(vols, key, value)) && |m[value]| > 0
    {
      assert At(m, value) == m[value];
    }
    if forall value | value in m :: |m[value]| == 1 {
      forall value ensures AllEqual(Placed(vols, key, value)) {
        assert |At(m, value)| <= 1;
      }
    }
    if Affine(vols, key) {
      forall value | value in m ensures |m[value]| == 1 {
        assert AllEqual(Placed(vols, key, value)) && |At(m, value)| <= 1;
      }
    }
  }

  /** `ValidateReplicaAffinityByNode`: `nil` exactly when every replica is on the given node. */
  method ValidateReplicaAffinityByNode(vols: seq<Volume>, deployedNode: string) returns (ok: bool)
    ensures ok <==> forall i, j | 0 <= i < |vols| && 0 <= j < |vols[i].replicaSets| ::
              forall n | n in vols[i].replicaSets[j] :: n == deployedNode
  {
    hide Concat;
    OnlyOnMeans(vols, deployedNode);
    var i := 0;
    while i < |vols|
      invariant 0 <= i <= |vols|
      invariant OnlyOn(vols[..i], deployedNode)
    {
      var nodeList := GetNodePlacement(vols[i]);
      var j := 0;
      while j < |nodeList|
        invariant 0 <= j <= |nodeList|
        invariant forall k | 0 <= k < j :: nodeList[k] == deployedNode
      {
        if nodeList[j] != deployedNode {
          assert nodeList[j] in Concat(vols[i].replicaSets);
          return false;
        }
        j := j + 1;
      }
      i := i + 1;
    }
    assert vols[..i] == vols;
    ok := true;
  }

  lemma OnlyOnMeans(vols: seq<Volume>, node: string)
    ensures OnlyOn(vols, node) <==> forall i, j | 0 <= i < |vols| && 0 <= j < |vols[i].replicaSets| ::
              forall n | n in vols[i].replicaSets[j] :: n == node
  {
    hide Concat;
    if OnlyOn(vols, node) {
      forall i, j | 0 <= i < |vols| && 0 <= j < |vols[i].replicaSets|
        ensures forall n | n in vols[i].replicaSets[j] :: n == node
      {
        forall n | n in vols[i].replicaSets[j] ensures n == node {
          ConcatMembers(vols[i].replicaSets, n);
        }
      }
    } else {
      var i :| 0 <= i < |vols| && exists n :: n in Concat(vols[i].replicaSets) && n != node;
      var n :| n in Concat(vols[i].replicaSets) && n != node;
      ConcatMembers(vols[i].replicaSets, n);
      var j :| 0 <= j < |vols[i].replicaSets| && n in vols[i].replicaSets[j];
    }
  }

  // ----- what is placed, said without the loops -----

  lemma {:induction false} ConcatMembers(lists: seq<seq<string>>, x: string)
    ensures x in Concat(lists) <==> exists j | 0 <= j < |lists| :: x in lists[j]
  {
    if lists != [] {
      var n := |lists| - 1;
      ConcatMembers(lists[..n], x);
      assert forall j | 0 <= j < n :: lists[..n][j] == lists[j];
    }
  }

  lemma {:induction false} ConcatAdds(a: seq<seq<string>>, b: seq<seq<string>>)
    ensures Concat(a + b) == Concat(a) + Concat(b)
    ensures |a| == 1 ==> Concat(a) == a[0]
    decreases |b|
  {
    if b == [] {
      assert a + b == a;
    } else {
      var n := |b| - 1;
      ConcatAdds(a, b[..n]);
      assert (a + b)[..|a + b| - 1] == a + b[..n];
    }
  }

  lemma {:induction false} NodesOfAdds(a: seq<Replica>, b: seq<Replica>, value: string)
    ensures NodesOf(a + b, value) == NodesOf(a, value) + NodesOf(b, value)
    decreases |b|
  {
    if b == [] {
      assert a + b == a;
    } else {
      var n := |b| - 1;
      NodesOfAdds(a, b[..n], value);
      assert (a + b)[..|a + b| - 1] == a + b[..n];
    }
  }

  lemma {:induction false} ReplicasAdds(a: seq<Volume>, b: seq<Volume>, key: string)
    ensures Replicas(a + b, key) == Replicas(a, key) + Replicas(b, key)
    decreases |b|
  {
    hide Concat, Tagged, Replicas;
    if b == [] {
      NoReplicas(key);
      assert a + b == a;
    } else {
      var n := |b| - 1;
      ReplicasAdds(a, b[..n], key);
      assert (a + b)[..|a + b| - 1] == a + b[..n];
      ReplicasLast(a + b, key);
      ReplicasLast(b, key);
    }
  }

  lemma ReplicasLast(vols: seq<Volume>, key: string)
    requires vols != []
    ensures var last := vols[|vols| - 1];
            Replicas(vols, key) ==
            Replicas(vols[..|vols| - 1], key) + Tagged(LabelValue(last, key), Concat(last.replicaSets))
  {
    hide Concat, Tagged, LabelValue;
  }

  lemma {:induction false} NodesOfOne(tag: string, nodes: seq<string>, n: nat, value: string)
    requires n <= |nodes|
    ensures NodesOf(Tagged(tag, nodes[..n]), value) == if tag == value then nodes[..n] else []
  {
    hide NodesOf, Tagged;
    if n == 0 {
      NothingTagged(tag, value);
    } else {
      NodesOfOne(tag, nodes, n - 1, value);
      TaggedPush(tag, nodes, n - 1);
      NodesOfPush(Tagged(tag, nodes[..n - 1]), Replica(tag, nodes[n - 1]), value);
    }
  }

  lemma NothingTagged(tag: string, value: string)
    ensures Tagged(tag, []) == [] && NodesOf([], value) == []
  {
  }

  /** The placement goes through the volumes one by one; a volume adds all its nodes to the value of its
      label, the empty string if it has none, and nothing to other values. */
  lemma PlacedAdds(a: seq<Volume>, b: seq<Volume>, key: string, value: string)
    ensures Placed(a + b, key, value) == Placed(a, key, value) + Placed(b, key, value)
  {
    hide NodesOf, Replicas;
    ReplicasAdds(a, b, key);
    NodesOfAdds(Replicas(a, key), Replicas(b, key), value);
  }

  lemma PlacedOne(vol: Volume, key: string, value: string)
    ensures Placed([vol], key, value) ==
            if value == (if key in vol.labels then vol.labels[key] else "") then Concat(vol.replicaSets) else []
  {
    hide NodesOf, Concat, Tagged;
    var nodes := Concat(vol.replicaSets);
    assert nodes[..|nodes|] == nodes;
    NodesOfOne(LabelValue(vol, key), nodes, |nodes|, value);
    assert Replicas([vol][..0], key) == [];
    assert Replicas([vol], key) == Tagged(LabelValue(vol, key), nodes);
  }

  /** How often a node occurs in some replica sets, and in the volumes with a label value. */
  function InSets(sets: seq<seq<string>>, node: string): nat {
    if sets == [] then 0 else multiset(sets[0])[node] + InSets(sets[1..], node)
  }

  function Occurrences(vols: seq<Volume>, key: string, value: string, node: string): nat {
    if vols == [] then 0
    else
      var own := if key in vols[0].labels then vols[0].labels[key] else "";
      (if own == value then InSets(vols[0].replicaSets, node) else 0) + Occurrences(vols[1..], key, value, node)
  }

  lemma {:induction false} ConcatCount(sets: seq<seq<string>>, node: string)
    ensures multiset(Concat(sets))[node] == InSets(sets, node)
    decreases |sets|
  {
    hide Concat;
    if sets == [] {
      NothingConcat();
    } else {
      ConcatCount(sets[1..], node);
      assert sets == [sets[0]] + sets[1..];
      ConcatAdds([sets[0]], sets[1..]);
    }
  }

  lemma NothingConcat()
    ensures Concat([]) == []
  {
  }

  /** The number of times a node is listed under a label value is that of its replicas. */
  lemma {:induction false} PlacedCount(vols: seq<Volume>, key: string, value: string, node: string)
    ensures multiset(Placed(vols, key, value))[node] == Occurrences(vols, key, value, node)
    decreases |vols|
  {
    hide Placed, Concat, InSets;
    if vols == [] {
      NothingListed(key, value);
    } else {
      PlacedCount(vols[1..], key, value, node);
      assert vols == [vols[0]] + vols[1..];
      PlacedAdds([vols[0]], vols[1..], key, value);
      PlacedOne(vols[0], key, value);
      ConcatCount(vols[0].replicaSets, node);
    }
  }

  lemma NothingListed(key: string, value: string)
    ensures Placed([], key, value) == []
  {
  }

  /** So the nodes under a label value are distinct if and only if none has two replicas of volumes with
      that value. */
  lemma DistinctMeans(vols: seq<Volume>, key: string, value: string)
    ensures Distinct(Placed(vols, key, value)) <==> forall node :: Occurrences(vols, key, value, node) <= 1
  {
    hide Placed, Occurrences, Distinct;
    var nodes := Placed(vols, key, value);
    DistinctByCount(nodes);
    if Distinct(nodes) {
      forall node ensures Occurrences(vols, key, value, node) <= 1 {
        PlacedCount(vols, key, value, node);
        assert multiset(nodes)[node] <= 1;
      }
    } else {
      var node :| multiset(nodes)[node] > 1;
      PlacedCount(vols, key, value, node);
    }
  }

  // ----- how the verdicts relate -----

  lemma {:induction false} NodesOfMembers(replicas: seq<Replica>, value: string, node: string)
    ensures node in NodesOf(replicas, value) <==> Replica(value, node) in replicas
  {
    if replicas != [] {
      var init, last := replicas[..|replicas| - 1], replicas[|replicas| - 1];
      NodesOfMembers(init, value, node);
      assert replicas == init + [last];
    }
  }

  ghost predicate Holds(vol: Volume, key: string, r: Replica) {
    && r.value == (if key in vol.labels then vol.labels[key] else "")
    && exists j | 0 <= j < |vol.replicaSets| :: r.node in vol.replicaSets[j]
  }

  ghost predicate Held(vols: seq<Volume>, key: string, r: Replica) {
    exists i | 0 <= i < |vols| :: Holds(vols[i], key, r)
  }

  lemma HeldPush(vols: seq<Volume>, n: nat, key: string, r: Replica)
    requires n < |vols|
    ensures Held(vols[..n + 1], key, r) <==> Held(vols[..n], key, r) || Holds(vols[n], key, r)
  {
    hide Holds;
    if Held(vols[..n + 1], key, r) {
      var i :| 0 <= i < n + 1 && Holds(vols[..n + 1][i], key, r);
      assert i < n ==> Holds(vols[..n][i], key, r);
    }
    if Held(vols[..n], key, r) {
      var i :| 0 <= i < n && Holds(vols[..n][i], key, r);
      assert Holds(vols[..n + 1][i], key, r);
    }
    assert vols[..n + 1][n] == vols[n];
  }

  lemma {:induction false} ReplicasMembers(vols: seq<Volume>, n: nat, key: string, r: Replica)
    requires n <= |vols|
    ensures r in Replicas(vols[..n], key) <==> Held(vols[..n], key, r)
  {
    hide Replicas;
    if n == 0 {
      NoReplicas(key);
      assert vols[..n] == [];
    } else {
      ReplicasMembers(vols, n - 1, key, r);
      HeldPush(vols, n - 1, key, r);
      ReplicasPush(vols, n - 1, key);
      var last := vols[n - 1];
      TaggedMembers(LabelValue(last, key), Concat(last.replicaSets), r);
      ConcatMembers(last.replicaSets, r.node);
    }
  }

  lemma NoReplicas(key: string)
    ensures Replicas([], key) == []
  {
  }

  lemma TaggedMembers(value: string, nodes: seq<string>, r: Replica)
    ensures r in Tagged(value, nodes) <==> r.value == value && r.node in nodes
  {
    if r.value == value && r.node in nodes {
      var i :| 0 <= i < |nodes| && nodes[i] == r.node;
      assert Tagged(value, nodes)[i] == r;
    }
  }

  /** Placement under a label value: the nodes in a replica set of a volume whose label, the empty string
      if it has none, is that value. */
  lemma PlacedMembers(vols: seq<Volume>, key: string, value: string, node: string)
    ensures node in Placed(vols, key, value) <==>
            exists i, j | 0 <= i < |vols| && 0 <= j < |vols[i].replicaSets| ::
              && node in vols[i].replicaSets[j]
              && (if key in vols[i].labels then vols[i].labels[key] == value else value == "")
  {
    hide NodesOf, Replicas;
    NodesOfMembers(Replicas(vols, key), value, node);
    ReplicasMembers(vols, |vols|, key, Replica(value, node));
    assert vols[..|vols|] == vols;
  }

  /** Replicas confined to one node are affine for every label. */
  lemma ReplicaAffinityImpliesAffinity(vols: seq<Volume>, node: string, key: string)
    requires OnlyOn(vols, node)
    ensures Affine(vols, key)
  {
    hide NodesOf, Replicas;
    forall value ensures AllEqual(Placed(vols, key, value)) {
      var p := Placed(vols, key, value);
      OnlyOnMeans(vols, node);
      forall i | 0 <= i < |p| ensures p[i] == node {
        PlacedMembers(vols, key, value, p[i]);
      }
    }
  }

  /** A placement with a replica can be affine and anti-affine on one label only for one node. */
  lemma AffineAndAntiAffine(vols: seq<Volume>, key: string, expected: int, i: nat, j: nat)
    requires Affine(vols, key) && AntiAffine(vols, key, expected)
    requires i < |vols| && j < |vols[i].replicaSets| && vols[i].replicaSets[j] != []
    ensures expected == 1
  {
    hide NodesOf, Replicas;
    var value, node := LabelValue(vols[i], key), vols[i].replicaSets[j][0];
    assert node in vols[i].replicaSets[j];
    PlacedMembers(vols, key, value, node);
    var p := Placed(vols, key, value);
    assert node in p && Distinct(p);
    FirstTwoEqual(p);
  }

  lemma FirstTwoEqual(p: seq<string>)
    requires AllEqual(p)
    ensures |p| <= 1 || p[0] == p[1]
  {
  }

  // ----- the order of the volumes does not matter -----

  function Total<T>(xs: seq<T>, share: T -> multiset<string>): multiset<string> {
    if xs == [] then multiset{} else Total(xs[..|xs| - 1], share) + share(xs[|xs| - 1])
  }

  lemma {:induction false} TotalRemove<T>(xs: seq<T>, i: nat, share: T -> multiset<string>)
    requires i < |xs|
    ensures Total(xs, share) == Total(xs[..i] + xs[i + 1..], share) + share(xs[i])
    decreases |xs|
  {
    var n := |xs| - 1;
    var rest := xs[..i] + xs[i + 1..];
    if i == n {
      assert rest == xs[..n];
    } else {
      TotalRemove(xs[..n], i, share);
      assert rest[..n - 1] == xs[..n][..i] + xs[..n][i + 1..];
      assert rest[n - 1] == xs[n];
    }
  }

  lemma {:induction false} TotalPermute<T>(a: seq<T>, b: seq<T>, share: T -> multiset<string>)
    requires multiset(a) == multiset(b)
    ensures Total(a, share) == Total(b, share)
    decreases |a|
  {
    hide Total;
    if a == [] {
      assert |multiset(b)| == 0;
      assert b == [];
    } else {
      var n := |a| - 1;
      var v := a[n];
      assert v in multiset(a) && v in b;
      var i :| 0 <= i < |b| && b[i] == v;
      MultisetWithout(a, n);
      MultisetWithout(b, i);
      assert a[..n] + a[n + 1..] == a[..n];
      TotalPermute(a[..n], b[..i] + b[i + 1..], share);
      TotalRemove(a, n, share);
      TotalRemove(b, i, share);
    }
  }

  lemma MultisetWithout<T>(xs: seq<T>, i: nat)
    requires i < |xs|
    ensures multiset(xs[..i] + xs[i + 1..]) == multiset(xs) - multiset{xs[i]}
  {
    assert xs == xs[..i] + [xs[i]] + xs[i + 1..];
  }

  /** The nodes that one volume adds to a label value. */
  function Share(vol: Volume, key: string, value: string): multiset<string> {
    if LabelValue(vol, key) == value then multiset(Concat(vol.replicaSets)) else multiset{}
  }

  lemma {:induction false} NodesOfTagged(done: seq<Replica>, tag: string, nodes: seq<string>, n: nat, value: string)
    requires n <= |nodes|
    ensures multiset(NodesOf(done + Tagged(tag, nodes[..n]), value)) ==
            multiset(NodesOf(done, value)) + (if tag == value then multiset(nodes[..n]) else multiset{})
  {
    hide NodesOf;
    if n == 0 {
      assert done + Tagged(tag, nodes[..n]) == done;
    } else {
      NodesOfTagged(done, tag, nodes, n - 1, value);
      TaggedPush(tag, nodes, n - 1);
      var before, r := done + Tagged(tag, nodes[..n - 1]), Replica(tag, nodes[n - 1]);
      assert done + Tagged(tag, nodes[..n]) == before + [r];
      assert nodes[..n] == nodes[..n - 1] + [nodes[n - 1]];
      NodesOfPush(before, r, value);
    }
  }

  lemma {:induction false} PlacedTotal(vols: seq<Volume>, key: string, value: string)
    ensures multiset(Placed(vols, key, value)) == Total(vols, (vol: Volume) => Share(vol, key, value))
  {
    if vols != [] {
      var init, last := vols[..|vols| - 1], vols[|vols| - 1];
      var nodes := Concat(last.replicaSets);
      PlacedTotal(init, key, value);
      assert nodes[..|nodes|] == nodes;
      NodesOfTagged(Replicas(init, key), LabelValue(last, key), nodes, |nodes|, value);
    }
  }

  lemma {:induction false} DistinctByCount(s: seq<string>)
    ensures Distinct(s) <==> forall x :: multiset(s)[x] <= 1
  {
    if s != [] {
      var n := |s| - 1;
      var init := s[..n];
      DistinctByCount(init);
      assert s == init + [s[n]];
      assert Distinct(s) <==> Distinct(init) && s[n] !in init;
      assert forall x :: multiset(s)[x] == multiset(init)[x] + (if x == s[n] then 1 else 0);
      assert s[n] in init <==> multiset(init)[s[n]] > 0;
    }
  }

  /** Both verdicts are the same for every order in which the volumes are listed. */
  lemma VerdictsIgnoreOrder(a: seq<Volume>, b: seq<Volume>, key: string, expected: int)
    requires multiset(a) == multiset(b)
    ensures AntiAffine(a, key, expected) <==> AntiAffine(b, key, expected)
    ensures Affine(a, key) <==> Affine(b, key)
  {
    hide NodesOf, Replicas;
    forall value
      ensures |Placed(a, key, value)| == |Placed(b, key, value)|
      ensures Distinct(Placed(a, key, value)) <==> Distinct(Placed(b, key, value))
      ensures AllEqual(Placed(a, key, value)) <==> AllEqual(Placed(b, key, value))
    {
      TotalPermute(a, b, (vol: Volume) => Share(vol, key, value));
      PlacedTotal(a, key, value);
      PlacedTotal(b, key, value);
      PermutedAlike(Placed(a, key, value), Placed(b, key, value));
      PermutedAlike(Placed(b, key, value), Placed(a, key, value));
    }
  }

  lemma PermutedAlike(p: seq<string>, q: seq<string>)
    requires multiset(p) == multiset(q)
    ensures |p| == |q|
    ensures Distinct(p) <==> Distinct(q)
    ensures AllEqual(p) ==> AllEqual(q)
  {
    assert |p| == |multiset(p)| && |q| == |multiset(q)|;
    DistinctByCount(p);
    DistinctByCount(q);
    if AllEqual(p) {
      forall i, j | 0 <= i < j < |q| ensures q[i] == q[j] {
        assert q[i] in multiset(p) && q[j] in multiset(p);
      }
    }
  }
}
