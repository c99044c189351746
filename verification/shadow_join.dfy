/**
 The two-pass join of shadow predictions to label rows: keyed shadows first, by exact key,
 then the others by feature-vector hash, nearest in time.
 */
module ShadowJoin {
  import opened Options

  const SHADOW_JOIN_TOLERANCE_MS := 120_000

  datatype Key = Key(featuresHash: string, ts: int)

  datatype Shadow = Shadow(featuresHash: Option<string>, labelTs: Option<int>, vectorHash: string,
                           session: Option<string>, ts: int) {
    /** `_exact_key`: the join key, when both halves are present. */
    function ExactKey(): Option<Key> {
      if featuresHash.None? || featuresHash.value == "" || labelTs.None? then None
      else Some(Key(featuresHash.value, labelTs.value))
    }

    predicate Keyed() {
      ExactKey().Some?
    }
  }

  datatype Label = Label(featuresHash: string, ts: int, vectorHash: Option<string>, session: Option<string>) {
    function ExactKey(): Key {
      Key(featuresHash, ts)
    }
  }

  datatype Pair = Pair(shadow: nat, row: nat)

  /** For every shadow, the label it is paired with. */
  type Partners = seq<Option<nat>>

  function Abs(n: int): nat {
    if n < 0 then -n else n
  }

  /******* What the join is *******/

  predicate SessionsClash(s: Shadow, l: Label) {
    s.session.Some? && l.session.Some? && s.session != l.session
  }

  /** The labels a shadow may be paired with. */
  predicate Candidate(s: Shadow, l: Label) {
    if s.Keyed() then s.ExactKey() == Some(l.ExactKey())
    else l.vectorHash == Some(s.vectorHash) && !SessionsClash(s, l) && Abs(l.ts - s.ts) <= SHADOW_JOIN_TOLERANCE_MS
  }

  /** Keyed shadows take labels in log order; the others the nearest in time, in log order among equals. */
  predicate Prefers(s: Shadow, labels: seq<Label>, a: nat, b: nat)
    requires a < |labels| && b < |labels|
  {
    if s.Keyed() || Abs(labels[a].ts - s.ts) == Abs(labels[b].ts - s.ts) then a <= b
    else Abs(labels[a].ts - s.ts) < Abs(labels[b].ts - s.ts)
  }

  /** The order shadows are served in: the keyed ones, then the others. */
  predicate Earlier(shadows: seq<Shadow>, i: nat, j: nat)
    requires i < |shadows| && j < |shadows|
  {
    if shadows[i].Keyed() == shadows[j].Keyed() then i < j else shadows[i].Keyed()
  }

  ghost predicate Free(shadows: seq<Shadow>, m: Partners, i: nat, l: nat)
    requires i < |shadows| == |m|
  {
    forall j | 0 <= j < |m| && Earlier(shadows, j, i) :: m[j] != Some(l)
  }

  /** Shadow `i` has the candidate it prefers among those no earlier shadow took, if there is one. */
  ghost predicate Chosen(shadows: seq<Shadow>, labels: seq<Label>, m: Partners, i: nat)
    requires i < |shadows| == |m|
  {
    match m[i]
    case Some(l) =>
      && l < |labels| && Candidate(shadows[i], labels[l]) && Free(shadows, m, i, l)
      && forall k | 0 <= k < |labels| && Candidate(shadows[i], labels[k]) && Free(shadows, m, i, k) ::
           Prefers(shadows[i], labels, l, k)
    case None =>
      forall k | 0 <= k < |labels| && Candidate(shadows[i], labels[k]) :: !Free(shadows, m, i, k)
  }

  ghost predicate IsJoin(shadows: seq<Shadow>, labels: seq<Label>, m: Partners) {
    |m| == |shadows| && forall i | 0 <= i < |m| :: Chosen(shadows, labels, m, i)
  }

  /******* What it guarantees *******/

  /** Each label is used at most once. */
  lemma JoinIsAMatching(shadows: seq<Shadow>, labels: seq<Label>, m: Partners, i: nat, j: nat)
    requires IsJoin(shadows, labels, m) && i < |m| && j < |m| && m[i].Some? && m[i] == m[j]
    ensures i == j
  {
    assert Chosen(shadows, labels, m, i) && Chosen(shadows, labels, m, j);
    var l := m[i].value;
    assert Free(shadows, m, i, l) && Free(shadows, m, j, l);
    assert !Earlier(shadows, i, j) && !Earlier(shadows, j, i);
  }

  /** A shadow is left alone only when every label it could take is taken. */
  lemma UnpairedHasNoFreeCandidate(shadows: seq<Shadow>, labels: seq<Label>, m: Partners, i: nat, l: nat)
    requires IsJoin(shadows, labels, m) && i < |m| && m[i].None? && l < |labels| && Candidate(shadows[i], labels[l])
    ensures exists j | 0 <= j < |m| :: m[j] == Some(l) && Earlier(shadows, j, i)
  {
    assert Chosen(shadows, labels, m, i);
    assert !Free(shadows, m, i, l);
  }

  /** Serving positions, keyed shadows first: the measure on which two joins are compared. */
  lemma {:induction false} JoinsAgreeUpTo(shadows: seq<Shadow>, labels: seq<Label>, m: Partners, n: Partners, i: nat)
    requires IsJoin(shadows, labels, m) && IsJoin(shadows, labels, n) && i < |shadows|
    ensures m[i] == n[i]
    decreases if shadows[i].Keyed() then 0 else 1, i
  {
    assert Chosen(shadows, labels, m, i) && Chosen(shadows, labels, n, i);
    forall j | 0 <= j < |shadows| && Earlier(shadows, j, i) ensures m[j] == n[j] {
      JoinsAgreeUpTo(shadows, labels, m, n, j);
    }
    forall l: nat ensures Free(shadows, m, i, l) <==> Free(shadows, n, i, l) {
    }
    assert m[i].Some? ==> Free(shadows, n, i, m[i].value);
    assert n[i].Some? ==> Free(shadows, m, i, n[i].value);
    if m[i].Some? && n[i].Some? {
      var a, b := m[i].value, n[i].value;
      assert Prefers(shadows[i], labels, a, b) && Prefers(shadows[i], labels, b, a);
    }
  }

  /** There is only one join: the result is determined by the shadows and the labels. */
  lemma JoinIsUnique(shadows: seq<Shadow>, labels: seq<Label>, m: Partners, n: Partners)
    requires IsJoin(shadows, labels, m) && IsJoin(shadows, labels, n)
    ensures m == n
  {
    forall i | 0 <= i < |m| ensures m[i] == n[i] {
      JoinsAgreeUpTo(shadows, labels, m, n, i);
    }
  }

  /******* Keyed pairs are as many as can be *******/

  ghost function ShadowsWith(shadows: seq<Shadow>, key: Key): set<nat> {
    set i: nat | i < |shadows| && shadows[i].ExactKey() == Some(key)
  }

  ghost function LabelsWith(labels: seq<Label>, key: Key): set<nat> {
    set l: nat | l < |labels| && labels[l].ExactKey() == key
  }

  ghost function PairedWith(shadows: seq<Shadow>, m: Partners, key: Key): set<nat>
    requires |m| == |shadows|
  {
    set i | i in ShadowsWith(shadows, key) && m[i].Some?
  }

  /** Any pairing that gives keyed shadows labels of their key, each label once. */
  ghost predicate PairsByKey(shadows: seq<Shadow>, labels: seq<Label>, m: Partners) {
    && |m| == |shadows|
    && (forall i | 0 <= i < |m| && m[i].Some? && shadows[i].Keyed() ::
          m[i].value < |labels| && shadows[i].ExactKey() == Some(labels[m[i].value].ExactKey()))
    && (forall i, j | 0 <= i < j < |m| && m[i].Some? :: m[i] != m[j])
  }

  lemma {:induction false} ImageSize(domain: set<nat>, m: Partners)
    requires forall i <- domain :: i < |m| && m[i].Some?
    requires forall i, j | i in domain && j in domain && i != j :: m[i] != m[j]
    ensures |set i | i in domain :: m[i].value| == |domain|
  {
    var image := set i | i in domain :: m[i].value;
    if domain == {} {
      assert image == {};
    } else {
      var x :| x in domain;
      var rest := domain - {x};
      ImageSize(rest, m);
      assert image == (set i | i in rest :: m[i].value) + {m[x].value};
    }
  }

  lemma SubsetSize(a: set<nat>, b: set<nat>)
    requires a <= b
    ensures |a| <= |b|
  {
    assert b == a + (b - a);
  }

  lemma NoPairingBeatsTheMinimum(shadows: seq<Shadow>, labels: seq<Label>, m: Partners, key: Key)
    requires PairsByKey(shadows, labels, m)
    ensures |PairedWith(shadows, m, key)| <= |ShadowsWith(shadows, key)|
    ensures |PairedWith(shadows, m, key)| <= |LabelsWith(labels, key)|
  {
    var paired := PairedWith(shadows, m, key);
    SubsetSize(paired, ShadowsWith(shadows, key));
    ImageSize(paired, m);
    SubsetSize(set i | i in paired :: m[i].value, LabelsWith(labels, key));
  }

  lemma JoinPairsByKey(shadows: seq<Shadow>, labels: seq<Label>, m: Partners)
    requires IsJoin(shadows, labels, m)
    ensures PairsByKey(shadows, labels, m)
  {
    forall i | 0 <= i < |m| && m[i].Some? && shadows[i].Keyed()
      ensures m[i].value < |labels| && shadows[i].ExactKey() == Some(labels[m[i].value].ExactKey())
    {
      assert Chosen(shadows, labels, m, i);
    }
    forall i, j | 0 <= i < j < |m| && m[i].Some? ensures m[i] != m[j] {
      if m[i] == m[j] {
        JoinIsAMatching(shadows, labels, m, i, j);
      }
    }
  }

  /** For every key the join pairs as many shadows as there are shadows or labels with it, whichever are fewer. */
  lemma KeyedPairsAreMinimum(shadows: seq<Shadow>, labels: seq<Label>, m: Partners, key: Key)
    requires IsJoin(shadows, labels, m)
    ensures var s, l := |ShadowsWith(shadows, key)|, |LabelsWith(labels, key)|;
            |PairedWith(shadows, m, key)| == if s <= l then s else l
  {
    var paired := PairedWith(shadows, m, key);
    JoinPairsByKey(shadows, labels, m);
    NoPairingBeatsTheMinimum(shadows, labels, m, key);
    if paired != ShadowsWith(shadows, key) {
      var i :| i in ShadowsWith(shadows, key) && i !in paired;
      var image := set j | j in paired :: m[j].value;
      forall l | l in LabelsWith(labels, key) ensures l in image {
        UnpairedHasNoFreeCandidate(shadows, labels, m, i, l);
        var j :| 0 <= j < |m| && m[j] == Some(l) && Earlier(shadows, j, i);
        assert j in paired;
      }
      ImageSize(paired, m);
      SubsetSize(LabelsWith(labels, key), image);
    }
  }

  /** So no pairing by exact key pairs more. */
  lemma JoinIsMaximumPerKey(shadows: seq<Shadow>, labels: seq<Label>, m: Partners, other: Partners, key: Key)
    requires IsJoin(shadows, labels, m) && PairsByKey(shadows, labels, other)
    ensures |PairedWith(shadows, other, key)| <= |PairedWith(shadows, m, key)|
  {
    KeyedPairsAreMinimum(shadows, labels, m, key);
    NoPairingBeatsTheMinimum(shadows, labels, other, key);
  }

  /******* Sorting the shadows *******/

  /** `sorted` by receipt time: stable insertion. */
  function Inserted(sorted: seq<Shadow>, s: Shadow): seq<Shadow> {
    if sorted == [] || sorted[|sorted| - 1].ts <= s.ts then sorted + [s]
    else Inserted(sorted[..|sorted| - 1], s) + [sorted[|sorted| - 1]]
  }

  function SortedByTs(shadows: seq<Shadow>): seq<Shadow> {
    if shadows == [] then [] else Inserted(SortedByTs(shadows[..|shadows| - 1]), shadows[|shadows| - 1])
  }

  predicate InTimeOrder(shadows: seq<Shadow>) {
    forall i, j | 0 <= i < j < |shadows| :: shadows[i].ts <= shadows[j].ts
  }

  /** The shadows of one instant, in order. */
  function At(shadows: seq<Shadow>, ts: int): seq<Shadow> {
    if shadows == [] then []
    else
      var before := At(shadows[..|shadows| - 1], ts);
      if shadows[|shadows| - 1].ts == ts then before + [shadows[|shadows| - 1]] else before
  }

  lemma AtOneMore(shadows: seq<Shadow>, s: Shadow, ts: int)
    ensures At(shadows + [s], ts) == if s.ts == ts then At(shadows, ts) + [s] else At(shadows, ts)
  {
    assert (shadows + [s])[..|shadows|] == shadows;
  }

  lemma {:induction false} InsertedInOrder(sorted: seq<Shadow>, s: Shadow)
    requires InTimeOrder(sorted)
    ensures InTimeOrder(Inserted(sorted, s))
    ensures forall x <- Inserted(sorted, s) :: x in sorted || x == s
  {
    if sorted != [] && sorted[|sorted| - 1].ts > s.ts {
      var init, last := sorted[..|sorted| - 1], sorted[|sorted| - 1];
      InsertedInOrder(init, s);
      var placed := Inserted(init, s);
      forall i | 0 <= i < |placed| ensures placed[i].ts <= last.ts {
        assert placed[i] in placed;
      }
    }
  }

  lemma {:induction false} InsertedAt(sorted: seq<Shadow>, s: Shadow, ts: int)
    ensures At(Inserted(sorted, s), ts) == if s.ts == ts then At(sorted, ts) + [s] else At(sorted, ts)
  {
    if sorted == [] || sorted[|sorted| - 1].ts <= s.ts {
      AtOneMore(sorted, s, ts);
    } else {
      var init, last := sorted[..|sorted| - 1], sorted[|sorted| - 1];
      InsertedAt(init, s, ts);
      AtOneMore(Inserted(init, s), last, ts);
    }
  }

  /** Sorting orders by time and keeps, for every instant, its shadows in log order. */
  lemma {:induction false} SortedFacts(shadows: seq<Shadow>, ts: int)
    ensures InTimeOrder(SortedByTs(shadows)) && At(SortedByTs(shadows), ts) == At(shadows, ts)
  {
    if shadows != [] {
      SortedFacts(shadows[..|shadows| - 1], ts);
      InsertedInOrder(SortedByTs(shadows[..|shadows| - 1]), shadows[|shadows| - 1]);
      InsertedAt(SortedByTs(shadows[..|shadows| - 1]), shadows[|shadows| - 1], ts);
    }
  }

  /******* The join itself *******/

  /** The positions of `key`, ascending. */
  function Positions<K(==)>(keys: seq<Option<K>>, key: K): seq<nat> {
    if keys == [] then []
    else
      var before := Positions(keys[..|keys| - 1], key);
      if keys[|keys| - 1] == Some(key) then before + [|keys| - 1] else before
  }

  lemma {:induction false} PositionsFacts<K>(keys: seq<Option<K>>, key: K)
    ensures forall p :: p in Positions(keys, key) <==> 0 <= p < |keys| && keys[p] == Some(key)
    ensures forall a, b | 0 <= a < b < |Positions(keys, key)| :: Positions(keys, key)[a] < Positions(keys, key)[b]
  {
    if keys != [] {
      var init := keys[..|keys| - 1];
      PositionsFacts(init, key);
      var before := Positions(init, key);
      assert forall a | 0 <= a < |before| :: before[a] in before;
    }
  }

  function GroupOf<K(==)>(groups: map<K, seq<nat>>, key: K): seq<nat> {
    if key in groups then groups[key] else []
  }

  /** The dictionaries `by_key` and `by_hash`. */
  method GroupBy<K(==)>(keys: seq<Option<K>>) returns (groups: map<K, seq<nat>>)
    ensures forall key :: GroupOf(groups, key) == Positions(keys, key)
  {
    groups := map[];
    for i := 0 to |keys|
      invariant forall key :: GroupOf(groups, key) == Positions(keys[..i], key)
    {
      assert keys[..i + 1][..i] == keys[..i];
      if keys[i].Some? {
        var key := keys[i].value;
        groups := groups[key := GroupOf(groups, key) + [i]];
      }
    }
    assert keys[..|keys|] == keys;
  }

  /** The pairs of the keyed shadows, or of the others, in shadow order. */
  function PairsOf(shadows: seq<Shadow>, m: Partners, keyed: bool, upTo: nat): seq<Pair>
    requires upTo <= |m| == |shadows|
  {
    if upTo == 0 then []
    else
      var before := PairsOf(shadows, m, keyed, upTo - 1);
      if shadows[upTo - 1].Keyed() == keyed && m[upTo - 1].Some? then before + [Pair(upTo - 1, m[upTo - 1].value)]
      else before
  }

  lemma {:induction false} PairsUnchanged(shadows: seq<Shadow>, m: Partners, n: Partners, keyed: bool, upTo: nat)
    requires upTo <= |m| == |n| == |shadows|
    requires forall i | 0 <= i < upTo && shadows[i].Keyed() == keyed :: m[i] == n[i]
    ensures PairsOf(shadows, m, keyed, upTo) == PairsOf(shadows, n, keyed, upTo)
  {
    if upTo > 0 {
      PairsUnchanged(shadows, m, n, keyed, upTo - 1);
    }
  }

  /** What stands when the shadows before position `i` of a pass have been served. */
  ghost predicate Served(shadows: seq<Shadow>, labels: seq<Label>, m: Partners, used: set<nat>, keyed: bool, i: nat)
    requires |m| == |shadows|
  {
    && i <= |m|
    && (forall j | 0 <= j < |m| && WasServed(shadows, keyed, i, j) :: Chosen(shadows, labels, m, j))
    && (forall j | 0 <= j < |m| && !WasServed(shadows, keyed, i, j) :: m[j] == None)
    && (forall l :: l in used <==> exists j | 0 <= j < |m| :: m[j] == Some(l))
  }

  predicate WasServed(shadows: seq<Shadow>, keyed: bool, i: nat, j: nat)
    requires j < |shadows|
  {
    if shadows[j].Keyed() == keyed then j < i else shadows[j].Keyed()
  }

  lemma FreeIsUnused(shadows: seq<Shadow>, labels: seq<Label>, m: Partners, used: set<nat>, keyed: bool, i: nat, l: nat)
    requires |m| == |shadows| && i < |m| && shadows[i].Keyed() == keyed
    requires Served(shadows, labels, m, used, keyed, i)
    ensures Free(shadows, m, i, l) <==> l !in used
  {
    forall j | 0 <= j < |m| && m[j].Some? ensures Earlier(shadows, j, i) {
      assert WasServed(shadows, keyed, i, j);
    }
  }

  /** A later choice does not disturb an earlier one. */
  lemma ChosenStays(shadows: seq<Shadow>, labels: seq<Label>, m: Partners, i: nat, choice: Option<nat>, j: nat)
    requires |m| == |shadows| && i < |m| && j < |m| && Earlier(shadows, j, i) && Chosen(shadows, labels, m, j)
    ensures Chosen(shadows, labels, m[i := choice], j)
  {
    var n := m[i := choice];
    forall l: nat ensures Free(shadows, m, j, l) <==> Free(shadows, n, j, l) {
      if Free(shadows, m, j, l) {
        assert Free(shadows, n, j, l);
      }
      if Free(shadows, n, j, l) {
        forall k | 0 <= k < |m| && Earlier(shadows, k, j) ensures m[k] != Some(l) {
          assert n[k] == m[k];
        }
      }
    }
  }

  /** One shadow served: its preferred unused candidate, or nothing. */
  ghost predicate BestUnused(s: Shadow, labels: seq<Label>, used: set<nat>, choice: Option<nat>) {
    match choice
    case Some(l) =>
      && l < |labels| && Candidate(s, labels[l]) && l !in used
      && forall k | 0 <= k < |labels| && Candidate(s, labels[k]) && k !in used :: Prefers(s, labels, l, k)
    case None => forall k | 0 <= k < |labels| && Candidate(s, labels[k]) :: k in used
  }

  function Using(used: set<nat>, choice: Option<nat>): set<nat> {
    if choice.Some? then used + {choice.value} else used
  }

  lemma NextServed(shadows: seq<Shadow>, labels: seq<Label>, m: Partners, used: set<nat>, keyed: bool, i: nat, choice: Option<nat>)
    requires |m| == |shadows| && i < |m| && Served(shadows, labels, m, used, keyed, i)
    requires shadows[i].Keyed() == keyed && BestUnused(shadows[i], labels, used, choice)
    ensures Served(shadows, labels, m[i := choice], Using(used, choice), keyed, i + 1)
  {
    var n := m[i := choice];
    assert !WasServed(shadows, keyed, i, i);
    forall l: nat ensures Free(shadows, n, i, l) <==> l !in used {
      FreeIsUnused(shadows, labels, m, used, keyed, i, l);
      FreeLooksEarlier(shadows, m, i, choice, l);
    }
    assert Chosen(shadows, labels, n, i);
    forall j | 0 <= j < |m| && WasServed(shadows, keyed, i + 1, j) ensures Chosen(shadows, labels, n, j) {
      if j != i {
        ChosenStays(shadows, labels, m, i, choice, j);
      }
    }
    forall l ensures l in Using(used, choice) <==> exists j | 0 <= j < |n| :: n[j] == Some(l) {
      if j :| 0 <= j < |m| && m[j] == Some(l) {
        assert n[j] == Some(l);
      }
      if choice == Some(l) {
        assert n[i] == Some(l);
      }
    }
  }

  lemma FreeLooksEarlier(shadows: seq<Shadow>, m: Partners, i: nat, choice: Option<nat>, l: nat)
    requires |m| == |shadows| && i < |m|
    ensures Free(shadows, m[i := choice], i, l) <==> Free(shadows, m, i, l)
  {
    var n := m[i := choice];
    assert forall j | 0 <= j < |m| && Earlier(shadows, j, i) :: n[j] == m[j];
  }

  function LabelKeys(labels: seq<Label>): seq<Option<Key>> {
    seq(|labels|, p requires 0 <= p < |labels| => Some(labels[p].ExactKey()))
  }

  function LabelHashes(labels: seq<Label>): seq<Option<string>> {
    seq(|labels|, p requires 0 <= p < |labels| => labels[p].vectorHash)
  }

  /** The labels with the shadow's key, or its vector hash, ascending. */
  ghost predicate Lists(s: Shadow, labels: seq<Label>, positions: seq<nat>) {
    && (forall p :: p in positions
          <==> 0 <= p < |labels|
               && if s.Keyed() then s.ExactKey() == Some(labels[p].ExactKey()) else labels[p].vectorHash == Some(s.vectorHash))
    && (forall a, b | 0 <= a < b < |positions| :: positions[a] < positions[b])
  }

  lemma KeyPositions(s: Shadow, labels: seq<Label>)
    requires s.Keyed()
    ensures Lists(s, labels, Positions(LabelKeys(labels), s.ExactKey().value))
  {
    PositionsFacts(LabelKeys(labels), s.ExactKey().value);
  }

  lemma HashPositions(s: Shadow, labels: seq<Label>)
    requires !s.Keyed()
    ensures Lists(s, labels, Positions(LabelHashes(labels), s.vectorHash))
  {
    PositionsFacts(LabelHashes(labels), s.vectorHash);
  }

  /** The exact pass's search: the first unused label of the key. */
  method FirstUnused(s: Shadow, labels: seq<Label>, used: set<nat>, positions: seq<nat>) returns (choice: Option<nat>)
    requires s.Keyed() && Lists(s, labels, positions)
    ensures BestUnused(s, labels, used, choice)
  {
    for n := 0 to |positions|
      invariant forall a | 0 <= a < n :: positions[a] in used
    {
      if positions[n] !in used {
        assert positions[n] in positions;
        return Some(positions[n]);
      }
    }
    return None;
  }

  /** The fallback's search: the nearest unused label of the hash within tolerance and session. */
  method NearestUnused(s: Shadow, labels: seq<Label>, used: set<nat>, positions: seq<nat>) returns (choice: Option<nat>)
    requires !s.Keyed() && Lists(s, labels, positions)
    ensures BestUnused(s, labels, used, choice)
  {
    choice := None;
    var bestGap: Option<nat> := None;
    assert forall a | 0 <= a < |positions| :: positions[a] in positions;
    for n := 0 to |positions|
      invariant forall a | 0 <= a < |positions| :: positions[a] < |labels|
      invariant bestGap.Some? <==> choice.Some?
      invariant choice.None? ==>
                  forall a | 0 <= a < n :: positions[a] in used || !Candidate(s, labels[positions[a]])
      invariant choice.Some? ==>
                  && choice.value < |labels| && choice.value in positions[..n] && choice.value !in used && Candidate(s, labels[choice.value])
                  && bestGap.value == Abs(labels[choice.value].ts - s.ts)
                  && forall a | 0 <= a < n && positions[a] !in used && Candidate(s, labels[positions[a]]) ::
                       Prefers(s, labels, choice.value, positions[a])
    {
      var l := positions[n];
      assert l in positions;
      if l !in used && !SessionsClash(s, labels[l]) {
        var gap := Abs(labels[l].ts - s.ts);
        if gap <= SHADOW_JOIN_TOLERANCE_MS && (bestGap.None? || gap < bestGap.value) {
          choice, bestGap := Some(l), Some(gap);
        }
      }
    }
  }

  function Extended(joined: seq<Pair>, i: nat, choice: Option<nat>): seq<Pair> {
    if choice.Some? then joined + [Pair(i, choice.value)] else joined
  }

  lemma StepFacts(shadows: seq<Shadow>, labels: seq<Label>, m: Partners, used: set<nat>, keyed: bool, i: nat,
                  choice: Option<nat>)
    requires |m| == |shadows| && i < |m| && Served(shadows, labels, m, used, keyed, i)
    requires shadows[i].Keyed() == keyed && BestUnused(shadows[i], labels, used, choice)
    ensures Served(shadows, labels, m[i := choice], Using(used, choice), keyed, i + 1)
    ensures PairsOf(shadows, m[i := choice], keyed, i + 1) == Extended(PairsOf(shadows, m, keyed, i), i, choice)
  {
    NextServed(shadows, labels, m, used, keyed, i, choice);
    PairsUnchanged(shadows, m, m[i := choice], keyed, i);
  }

  lemma SkipServed(shadows: seq<Shadow>, labels: seq<Label>, m: Partners, used: set<nat>, keyed: bool, i: nat)
    requires |m| == |shadows| && i < |m| && Served(shadows, labels, m, used, keyed, i) && shadows[i].Keyed() != keyed
    ensures Served(shadows, labels, m, used, keyed, i + 1)
    ensures PairsOf(shadows, m, keyed, i + 1) == PairsOf(shadows, m, keyed, i)
  {
    assert forall j | 0 <= j < |m| :: WasServed(shadows, keyed, i + 1, j) <==> WasServed(shadows, keyed, i, j);
  }

  function Nobody(n: nat): Partners {
    seq(n, _ => None)
  }

  lemma NobodyServed(shadows: seq<Shadow>, labels: seq<Label>)
    ensures Served(shadows, labels, Nobody(|shadows|), {}, true, 0)
    ensures PairsOf(shadows, Nobody(|shadows|), true, 0) == []
  {
  }

  /** Pass 1: the keyed shadows. */
  method ExactPass(shadows: seq<Shadow>, labels: seq<Label>) returns (joined: seq<Pair>, used: set<nat>, ghost m: Partners)
    ensures |m| == |shadows| && Served(shadows, labels, m, used, true, |m|)
    ensures joined == PairsOf(shadows, m, true, |m|)
  {
    var byKey := GroupBy(LabelKeys(labels));
    joined, used, m := [], {}, Nobody(|shadows|);
    NobodyServed(shadows, labels);
    for i := 0 to |shadows|
      invariant |m| == |shadows| && Served(shadows, labels, m, used, true, i)
      invariant joined == PairsOf(shadows, m, true, i)
    {
      var s := shadows[i];
      if s.Keyed() {
        var key := s.ExactKey().value;
        KeyPositions(s, labels);
        var choice := FirstUnused(s, labels, used, GroupOf(byKey, key));
        StepFacts(shadows, labels, m, used, true, i, choice);
        joined, used, m := Extended(joined, i, choice), Using(used, choice), m[i := choice];
      } else {
        SkipServed(shadows, labels, m, used, true, i);
      }
    }
  }

  ghost predicate SameWhereKeyed(shadows: seq<Shadow>, m: Partners, n: Partners) {
    |m| == |n| == |shadows| && forall i | 0 <= i < |shadows| && shadows[i].Keyed() :: m[i] == n[i]
  }

  /** Pass 2: the shadows without an exact key. */
  method FallbackPass(shadows: seq<Shadow>, labels: seq<Label>, taken: set<nat>, ghost exact: Partners)
    returns (joined: seq<Pair>, ghost m: Partners)
    requires |exact| == |shadows| && Served(shadows, labels, exact, taken, true, |exact|)
    ensures IsJoin(shadows, labels, m)
    ensures SameWhereKeyed(shadows, m, exact)
    ensures joined == PairsOf(shadows, m, false, |m|)
  {
    var byHash := GroupBy(LabelHashes(labels));
    var used := taken;
    joined, m := [], exact;
    SwitchPass(shadows, labels, exact, taken);
    for i := 0 to |shadows|
      invariant |m| == |shadows| && Served(shadows, labels, m, used, false, i)
      invariant SameWhereKeyed(shadows, m, exact)
      invariant joined == PairsOf(shadows, m, false, i)
    {
      var s := shadows[i];
      if !s.Keyed() {
        HashPositions(s, labels);
        var choice := NearestUnused(s, labels, used, GroupOf(byHash, s.vectorHash));
        StepFacts(shadows, labels, m, used, false, i, choice);
        joined, used, m := Extended(joined, i, choice), Using(used, choice), m[i := choice];
      } else {
        SkipServed(shadows, labels, m, used, false, i);
      }
    }
    AllServedIsJoin(shadows, labels, m, used);
  }

  lemma SwitchPass(shadows: seq<Shadow>, labels: seq<Label>, m: Partners, used: set<nat>)
    requires |m| == |shadows| && Served(shadows, labels, m, used, true, |m|)
    ensures Served(shadows, labels, m, used, false, 0)
  {
    assert forall j | 0 <= j < |m| :: WasServed(shadows, false, 0, j) <==> WasServed(shadows, true, |m|, j);
  }

  lemma AllServedIsJoin(shadows: seq<Shadow>, labels: seq<Label>, m: Partners, used: set<nat>)
    requires |m| == |shadows| && Served(shadows, labels, m, used, false, |m|)
    ensures IsJoin(shadows, labels, m)
  {
    assert forall j | 0 <= j < |m| :: WasServed(shadows, false, |m|, j);
  }

  /** The pairs of the one join of a log, the keyed ones first, each in shadow order. */
  ghost predicate JoinsLog(log: seq<Shadow>, labels: seq<Label>, joined: seq<Pair>) {
    var shadows := SortedByTs(log);
    exists m :: IsJoin(shadows, labels, m)
      && joined == PairsOf(shadows, m, true, |shadows|) + PairsOf(shadows, m, false, |shadows|)
  }

  /** `join_shadow_to_labels`. */
  method Join(log: seq<Shadow>, labels: seq<Label>) returns (joined: seq<Pair>)
    ensures JoinsLog(log, labels, joined)
  {
    var shadows := SortedByTs(log);
    var used, nearest;
    ghost var exact, m;
    joined, used, exact := ExactPass(shadows, labels);
    nearest, m := FallbackPass(shadows, labels, used, exact);
    PairsUnchanged(shadows, exact, m, true, |shadows|);
    joined := joined + nearest;
    assert IsJoin(shadows, labels, m);
  }

  /** The result is determined by the log and the labels alone. */
  lemma JoinIsDeterministic(log: seq<Shadow>, labels: seq<Label>, a: seq<Pair>, b: seq<Pair>)
    requires JoinsLog(log, labels, a) && JoinsLog(log, labels, b)
    ensures a == b
  {
    var shadows := SortedByTs(log);
    var m :| IsJoin(shadows, labels, m)
      && a == PairsOf(shadows, m, true, |shadows|) + PairsOf(shadows, m, false, |shadows|);
    var n :| IsJoin(shadows, labels, n)
      && b == PairsOf(shadows, n, true, |shadows|) + PairsOf(shadows, n, false, |shadows|);
    JoinIsUnique(shadows, labels, m, n);
  }
}
