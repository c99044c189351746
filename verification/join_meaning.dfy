/** What the shadow join pairs, said over the fields of shadows and labels. */
module JoinMeaning {
  import opened Options
  import opened ShadowJoin

  /** A shadow that names the label it was served for: a hash that is not empty, and a time. */
  predicate NamesItsLabel(s: Shadow) {
    s.featuresHash.Some? && s.featuresHash.value != "" && s.labelTs.Some?
  }

  /** The label the shadow names. */
  predicate IsNamed(s: Shadow, l: Label) {
    s.featuresHash == Some(l.featuresHash) && s.labelTs == Some(l.ts)
  }

  /** A label of the same vector and of no other session, at most two minutes before or after. */
  predicate IsNear(s: Shadow, l: Label) {
    && l.vectorHash == Some(s.vectorHash)
    && (s.session.None? || l.session.None? || s.session == l.session)
    && s.ts - 120000 <= l.ts <= s.ts + 120000
  }

  /** Of two labels in the log, the one at `a` is nearer to the shadow in time, or as near and first. */
  predicate NearerOrFirst(s: Shadow, labels: seq<Label>, a: nat, b: nat)
    requires a < |labels| && b < |labels|
  {
    var d := if labels[b].ts >= s.ts then labels[b].ts - s.ts else s.ts - labels[b].ts;
    (s.ts - d < labels[a].ts < s.ts + d) || (a <= b && (labels[a].ts == s.ts - d || labels[a].ts == s.ts + d))
  }

  predicate Matches(s: Shadow, l: Label) {
    if NamesItsLabel(s) then IsNamed(s, l) else IsNear(s, l)
  }

  /** No shadow served before took the label: those that name theirs come first, each kind in the order of the log. */
  ghost predicate LeftFor(shadows: seq<Shadow>, m: Partners, i: nat, l: nat)
    requires i < |shadows| == |m|
  {
    forall j | 0 <= j < |m| && m[j] == Some(l) ::
      if NamesItsLabel(shadows[j]) == NamesItsLabel(shadows[i]) then i <= j else NamesItsLabel(shadows[i])
  }

  lemma MatchesExactly(s: Shadow, l: Label)
    ensures s.Keyed() <==> NamesItsLabel(s)
    ensures Candidate(s, l) <==> Matches(s, l)
  {
  }

  lemma PrefersExactly(s: Shadow, labels: seq<Label>, a: nat, b: nat)
    requires a < |labels| && b < |labels|
    ensures Prefers(s, labels, a, b) <==> if NamesItsLabel(s) then a <= b else NearerOrFirst(s, labels, a, b)
  {
  }

  /** Shadow `i` has the best of the labels left for it that it matches: the first it names, or the nearest. */
  ghost predicate HasTheBest(shadows: seq<Shadow>, labels: seq<Label>, m: Partners, i: nat)
    requires i < |shadows| == |m|
  {
    match m[i]
    case Some(l) =>
      && l < |labels| && Matches(shadows[i], labels[l]) && LeftFor(shadows, m, i, l)
      && forall k | 0 <= k < |labels| && Matches(shadows[i], labels[k]) && LeftFor(shadows, m, i, k) ::
           if NamesItsLabel(shadows[i]) then l <= k else NearerOrFirst(shadows[i], labels, l, k)
    case None =>
      forall k | 0 <= k < |labels| && Matches(shadows[i], labels[k]) :: !LeftFor(shadows, m, i, k)
  }

  /** The join, exactly: every shadow has the best label left for it by those served before it. */
  lemma PairedExactly(shadows: seq<Shadow>, labels: seq<Label>, m: Partners, i: nat)
    requires i < |shadows| == |m|
    ensures Chosen(shadows, labels, m, i) <==> HasTheBest(shadows, labels, m, i)
  {
    forall k: nat | k < |labels| ensures Candidate(shadows[i], labels[k]) <==> Matches(shadows[i], labels[k]) {
      MatchesExactly(shadows[i], labels[k]);
    }
    forall k: nat ensures Free(shadows, m, i, k) <==> LeftFor(shadows, m, i, k) {
      FreeExactly(shadows, m, i, k);
    }
    if m[i].Some? && m[i].value < |labels| {
      forall k: nat | k < |labels|
        ensures Prefers(shadows[i], labels, m[i].value, k)
                <==> if NamesItsLabel(shadows[i]) then m[i].value <= k else NearerOrFirst(shadows[i], labels, m[i].value, k)
      {
        PrefersExactly(shadows[i], labels, m[i].value, k);
      }
    }
  }

  lemma FreeExactly(shadows: seq<Shadow>, m: Partners, i: nat, k: nat)
    requires i < |shadows| == |m|
    ensures Free(shadows, m, i, k) <==> LeftFor(shadows, m, i, k)
  {
    assert forall j | 0 <= j < |m| && m[j] == Some(k) :: shadows[j].Keyed() == NamesItsLabel(shadows[j]);
  }

  lemma {:induction false} PairsOfMembers(shadows: seq<Shadow>, m: Partners, keyed: bool, upTo: nat, p: Pair)
    requires upTo <= |m| == |shadows|
    ensures p in PairsOf(shadows, m, keyed, upTo)
            <==> p.shadow < upTo && shadows[p.shadow].Keyed() == keyed && m[p.shadow] == Some(p.row)
  {
    if upTo > 0 {
      PairsOfMembers(shadows, m, keyed, upTo - 1, p);
    }
  }

  /**
   What `Join` returns, over the fields of the log and the labels: its pairs match, no shadow or
   label is in two, every shadow has the best label left for it, and one in no pair leaves no
   label in none that it could have taken.
   */
  lemma JoinInFields(log: seq<Shadow>, labels: seq<Label>, joined: seq<Pair>)
    requires JoinsLog(log, labels, joined)
    ensures var shadows := SortedByTs(log);
            && (forall p <- joined :: p.shadow < |shadows| && p.row < |labels| && Matches(shadows[p.shadow], labels[p.row]))
            && (forall p, q | p in joined && q in joined && (p.shadow == q.shadow || p.row == q.row) :: p == q)
            && (exists m: Partners ::
                  && |m| == |shadows| && (forall i | 0 <= i < |m| :: HasTheBest(shadows, labels, m, i))
                  && forall p: Pair :: p in joined <==> p.shadow < |shadows| && m[p.shadow] == Some(p.row))
            && (forall i, k | 0 <= i < |shadows| && 0 <= k < |labels| && Matches(shadows[i], labels[k]) ::
                  exists p <- joined :: p.shadow == i || p.row == k)
  {
    var shadows := SortedByTs(log);
    var m :| IsJoin(shadows, labels, m)
      && joined == PairsOf(shadows, m, true, |shadows|) + PairsOf(shadows, m, false, |shadows|);
    forall p: Pair ensures p in joined <==> p.shadow < |shadows| && m[p.shadow] == Some(p.row) {
      PairsOfMembers(shadows, m, true, |shadows|, p);
      PairsOfMembers(shadows, m, false, |shadows|, p);
    }
    forall p | p in joined ensures p.row < |labels| && Matches(shadows[p.shadow], labels[p.row]) {
      PairedExactly(shadows, labels, m, p.shadow);
    }
    forall i: nat | i < |m| ensures HasTheBest(shadows, labels, m, i) {
      assert Chosen(shadows, labels, m, i);
      PairedExactly(shadows, labels, m, i);
    }
    forall p, q | p in joined && q in joined && (p.shadow == q.shadow || p.row == q.row) ensures p == q {
      if p.row == q.row {
        JoinIsAMatching(shadows, labels, m, p.shadow, q.shadow);
      }
    }
    forall i, k | 0 <= i < |shadows| && 0 <= k < |labels| && Matches(shadows[i], labels[k])
      ensures exists p <- joined :: p.shadow == i || p.row == k
    {
      SomeoneIsPaired(shadows, labels, m, joined, i, k);
    }
  }

  lemma SomeoneIsPaired(shadows: seq<Shadow>, labels: seq<Label>, m: Partners, joined: seq<Pair>, i: nat, k: nat)
    requires IsJoin(shadows, labels, m) && i < |shadows| && k < |labels| && Matches(shadows[i], labels[k])
    requires forall p: Pair :: p in joined <==> p.shadow < |shadows| && m[p.shadow] == Some(p.row)
    ensures exists p <- joined :: p.shadow == i || p.row == k
  {
    assert Chosen(shadows, labels, m, i);
    PairedExactly(shadows, labels, m, i);
    if m[i].Some? {
      assert Pair(i, m[i].value) in joined;
    } else {
      assert !LeftFor(shadows, m, i, k);
      var j :| 0 <= j < |m| && m[j] == Some(k);
      assert Pair(j, k) in joined;
    }
  }

  /** Pairs of one kind, in the order of their shadows, which come before the `upTo`th. */
  ghost predicate OneKind(shadows: seq<Shadow>, pairs: seq<Pair>, keyed: bool, upTo: nat) {
    && upTo <= |shadows|
    && (forall a | 0 <= a < |pairs| :: pairs[a].shadow < upTo && NamesItsLabel(shadows[pairs[a].shadow]) == keyed)
    && (forall a, b | 0 <= a < b < |pairs| :: pairs[a].shadow < pairs[b].shadow)
  }

  lemma OneMorePair(shadows: seq<Shadow>, pairs: seq<Pair>, keyed: bool, i: nat, p: Pair)
    requires OneKind(shadows, pairs, keyed, i) && i < |shadows| && p.shadow == i && NamesItsLabel(shadows[i]) == keyed
    ensures OneKind(shadows, pairs + [p], keyed, i + 1)
  {
  }

  lemma {:induction false} PairsInOrder(shadows: seq<Shadow>, m: Partners, keyed: bool, upTo: nat)
    requires upTo <= |m| == |shadows|
    ensures OneKind(shadows, PairsOf(shadows, m, keyed, upTo), keyed, upTo)
  {
    if upTo > 0 {
      var i := upTo - 1;
      PairsInOrder(shadows, m, keyed, i);
      if shadows[i].Keyed() == keyed && m[i].Some? {
        OneMorePair(shadows, PairsOf(shadows, m, keyed, i), keyed, i, Pair(i, m[i].value));
      }
    }
  }

  /** The pairs of shadows that name their label come first, each kind in the order served. */
  lemma JoinOrder(log: seq<Shadow>, labels: seq<Label>, joined: seq<Pair>)
    requires JoinsLog(log, labels, joined)
    ensures var shadows := SortedByTs(log);
            exists n | 0 <= n <= |joined| ::
              OneKind(shadows, joined[..n], true, |shadows|) && OneKind(shadows, joined[n..], false, |shadows|)
  {
    var shadows := SortedByTs(log);
    var m :| IsJoin(shadows, labels, m)
      && joined == PairsOf(shadows, m, true, |shadows|) + PairsOf(shadows, m, false, |shadows|);
    PairsInOrder(shadows, m, true, |shadows|);
    PairsInOrder(shadows, m, false, |shadows|);
    var n := |PairsOf(shadows, m, true, |shadows|)|;
    assert joined[..n] == PairsOf(shadows, m, true, |shadows|) && joined[n..] == PairsOf(shadows, m, false, |shadows|);
  }
}
