/** Pairing the players that wait in a queue. */
module Matchmaking {
  import opened Options
  import opened FiniteSets
  import opened RingBuffers
  import opened Sequences

  datatype Player = Player(name: string, rank: string)

  datatype Match = Match(a: Player, b: Player)

  predicate Compatible(a: Player, b: Player) {
    a.rank == b.rank
  }

  /** Where the first player compatible with a stands, or the length. */
  function Partner(a: Player, others: seq<Player>): (k: nat)
    ensures k <= |others| && (k < |others| ==> Compatible(a, others[k]))
    ensures forall i :: 0 <= i < k ==> !Compatible(a, others[i])
  {
    if others == [] || Compatible(a, others[0]) then 0 else
      var k := Partner(a, others[1..]);
      assert forall i :: 1 <= i < k + 1 ==> others[i] == others[1..][i - 1];
      1 + k
  }

  /** A scan of the queue from its head for a partner of a; the queue itself is only read. */
  method FindPartner(front: Player, others: seq<Player>) returns (k: nat)
    ensures k == Partner(front, others)
  {
    k := 0;
    while k < |others| && !Compatible(front, others[k])
      invariant k <= Partner(front, others)
    {
      k := k + 1;
    }
  }

  /** What one attempt does to those waiting, and whom it pairs. */
  function Attempt(c: seq<Player>): (r: (Option<Match>, seq<Player>))
  {
    if c == [] then (None, c) else
      var k := Partner(c[0], c[1..]);
      if k == |c| - 1 then (None, c) else (Some(Match(c[0], c[k + 1])), c[1..k + 1] + c[k + 2..])
  }

  /** The player at place k has the rank of the one at the front. */
  ghost predicate PairsWith(c: seq<Player>, k: int) {
    0 < k < |c| && c[k].rank == c[0].rank
  }

  /** Nobody between the front and place k has the rank of the front. */
  ghost predicate FirstOfRank(c: seq<Player>, k: int) {
    forall i :: 0 < i < k && i < |c| ==> c[i].rank != c[0].rank
  }

  lemma AttemptPairs(c: seq<Player>)
    ensures if exists k :: PairsWith(c, k)
      then exists k :: PairsWith(c, k) && FirstOfRank(c, k) &&
                       Attempt(c) == (Some(Match(c[0], c[k])), c[1..k] + c[k + 1..])
      else Attempt(c) == (None, c)
  {
    if c != [] {
      var k := Partner(c[0], c[1..]) + 1;
      forall i | 0 < i < |c| && i < k ensures c[i].rank != c[0].rank {
        assert c[i] == c[1..][i - 1] && !Compatible(c[0], c[1..][i - 1]);
      }
      if k < |c| {
        assert c[k] == c[1..][k - 1];
        assert PairsWith(c, k) && FirstOfRank(c, k);
      }
    }
  }

  /** The attempt itself. */
  method TakePair(q: Queue<Player>) returns (r: Option<Match>)
    requires q.Valid()
    modifies q, q.items
    ensures q.Valid() && (q.items == old(q.items) || fresh(q.items))
    ensures (r, q.Contents()) == Attempt(old(q.Contents()))
  {
    ghost var c := q.Contents();
    var popped := q.Pop();
    if popped.None? {
      return None;
    }
    var front := popped.value;
    var others := q.Slice();
    var k := FindPartner(front, others);
    if k < |others| {
      assert c[1..][..k] == c[1..k + 1] && c[1..][k + 1..] == c[k + 2..];
      var found := q.RemoveAt(k);
      return Some(Match(front, found));
    }
    assert [c[0]] + c[1..] == c;
    q.PushFront(front);
    return None;
  }

  /** One attempt: on success two players fewer, on failure no change at all. */
  method Matchmake(q: Queue<Player>) returns (r: Option<Match>)
    requires q.Valid()
    modifies q, q.items
    ensures q.Valid() && (q.items == old(q.items) || fresh(q.items))
    ensures (r, q.Contents()) == Attempt(old(q.Contents()))
    ensures var c := old(q.Contents());
      if exists k :: PairsWith(c, k)
      then exists k :: PairsWith(c, k) && FirstOfRank(c, k) && r == Some(Match(c[0], c[k])) &&
                       q.Contents() == c[1..k] + c[k + 1..]
      else r == None && q.Contents() == c
  {
    AttemptPairs(q.Contents());
    r := TakePair(q);
  }

  // ---------- What matching keeps ----------

  function Players(matches: seq<Match>): seq<Player> {
    if matches == [] then [] else
      var last := matches[|matches| - 1];
      Players(matches[..|matches| - 1]) + [last.a, last.b]
  }

  predicate Fair(matches: seq<Match>) {
    forall i :: 0 <= i < |matches| ==> Compatible(matches[i].a, matches[i].b)
  }

  /** ids, in order but for a rotation: those of back come before those of front. */
  ghost predicate Rotated(ids: seq<nat>, front: seq<nat>, back: seq<nat>) {
    ids == front + back && Ascending(back + front)
  }

  /** Those waiting are the players of all that ids names. */
  ghost predicate Named(all: seq<Player>, ids: seq<nat>, waiting: seq<Player>) {
    |ids| == |waiting| && forall i :: 0 <= i < |ids| ==> ids[i] < |all| && waiting[i] == all[ids[i]]
  }

  /** The waiting players are in the original order of arrival, but for a rotation. */
  ghost predicate InTurn(all: seq<Player>, waiting: seq<Player>) {
    exists ids, front, back :: Rotated(ids, front, back) && Named(all, ids, waiting)
  }

  /** Nobody lost, nobody invented, and only equal ranks paired. */
  ghost predicate Conserves(all: seq<Player>, matches: seq<Match>, waiting: seq<Player>) {
    multiset(Players(matches)) + multiset(waiting) == multiset(all) && Fair(matches)
  }

  /** The last n have nobody to pair with. */
  ghost predicate Hopeless(waiting: seq<Player>, n: int) {
    forall i, j {:trigger waiting[i], waiting[j]} ::
      0 <= i < |waiting| && 0 <= j < |waiting| && i != j && j >= |waiting| - n ==> !Compatible(waiting[i], waiting[j])
  }

  lemma TwoTaken(c: seq<Player>, k: nat)
    requires 0 < k < |c|
    ensures multiset(c) == multiset{c[0], c[k]} + multiset(c[1..k] + c[k + 1..])
  {
    var x, y := c[1..k], c[k + 1..];
    assert c == [c[0]] + x + [c[k]] + y;
    assert multiset(x + y) == multiset(x) + multiset(y);
  }

  lemma OneMatchMore(matches: seq<Match>, m: Match)
    ensures multiset(Players(matches + [m])) == multiset(Players(matches)) + multiset{m.a, m.b}
  {
    assert (matches + [m])[..|matches|] == matches;
  }

  lemma AttemptConserves(all: seq<Player>, matches: seq<Match>, c: seq<Player>)
    requires Conserves(all, matches, c) && Attempt(c).0.Some?
    ensures Conserves(all, matches + [Attempt(c).0.value], Attempt(c).1)
  {
    var m, rest := Attempt(c).0.value, Attempt(c).1;
    TwoTaken(c, Partner(c[0], c[1..]) + 1);
    OneMatchMore(matches, m);
    Regrouped(multiset(Players(matches)), multiset{m.a, m.b}, multiset(rest));
  }

  lemma Regrouped(x: multiset<Player>, y: multiset<Player>, z: multiset<Player>)
    ensures (x + y) + z == x + (y + z)
  {
  }

  lemma AttemptFailed(c: seq<Player>, n: int)
    requires Attempt(c).0.None? && Hopeless(c, n) && 0 <= n < |c|
    ensures Hopeless(c[1..] + [c[0]], n + 1)
  {
    var d := c[1..] + [c[0]];
    assert forall j :: 0 <= j < |c| - 1 ==> c[1..][j] == c[j + 1];
    forall i, j | 0 <= i < |d| && 0 <= j < |d| && i != j && j >= |d| - (n + 1) ensures !Compatible(d[i], d[j]) {
      var i', j' := if i == |d| - 1 then 0 else i + 1, if j == |d| - 1 then 0 else j + 1;
      assert d[i] == c[i'] && d[j] == c[j'];
    }
  }

  function UpTo(n: nat): (s: seq<nat>)
    ensures |s| == n && forall i :: 0 <= i < n ==> s[i] == i
  {
    if n == 0 then [] else UpTo(n - 1) + [n - 1]
  }

  lemma StartsInTurn(all: seq<Player>)
    ensures InTurn(all, all)
  {
    var ids := UpTo(|all|);
    assert ids + [] == ids && [] + ids == ids;
    assert Rotated(ids, ids, []) && Named(all, ids, all);
  }

  lemma DropKeepsOrder(s: seq<nat>, i: nat)
    requires Ascending(s) && i < |s|
    ensures Ascending(s[..i] + s[i + 1..])
  {
    var t := s[..i] + s[i + 1..];
    forall a, b | 0 <= a < b < |t| ensures t[a] < t[b] {
      assert t[a] == s[if a < i then a else a + 1] && t[b] == s[if b < i then b else b + 1];
    }
  }

  /** Anyone may leave. */
  lemma LeaveInTurn(all: seq<Player>, c: seq<Player>, i: nat)
    requires InTurn(all, c) && i < |c|
    ensures InTurn(all, c[..i] + c[i + 1..])
  {
    var ids, front, back :| Rotated(ids, front, back) && Named(all, ids, c);
    var rest := ids[..i] + ids[i + 1..];
    assert Named(all, rest, c[..i] + c[i + 1..]);
    if i < |front| {
      var f := front[..i] + front[i + 1..];
      DropKeepsOrder(back + front, |back| + i);
      assert back + f == (back + front)[..|back| + i] + (back + front)[|back| + i + 1..];
      assert rest == f + back;
      assert Rotated(rest, f, back);
    } else {
      var k := i - |front|;
      var b := back[..k] + back[k + 1..];
      DropKeepsOrder(back + front, k);
      assert b + front == (back + front)[..k] + (back + front)[k + 1..];
      assert rest == front + b;
      assert Rotated(rest, front, b);
    }
  }

  lemma NamedRotated(all: seq<Player>, ids: seq<nat>, c: seq<Player>)
    requires Named(all, ids, c) && c != []
    ensures Named(all, ids[1..] + [ids[0]], c[1..] + [c[0]])
  {
    assert c[0] == all[ids[0]];
    assert forall i :: 1 <= i < |c| ==> c[i] == all[ids[i]];
  }

  lemma TurnedOnce(ids: seq<nat>, front: seq<nat>, back: seq<nat>)
    requires Rotated(ids, front, back) && front != []
    ensures Rotated(ids[1..] + [ids[0]], front[1..], back + [front[0]])
  {
    var f, b := front[1..], back + [front[0]];
    assert b + f == back + front;
    assert ids[1..] == f + back;
  }

  lemma TurnedInTurn(all: seq<Player>, c: seq<Player>, ids: seq<nat>, front: seq<nat>, back: seq<nat>)
    requires Rotated(ids, front, back) && front != [] && Named(all, ids, c)
    ensures InTurn(all, c[1..] + [c[0]])
  {
    NamedRotated(all, ids, c);
    TurnedOnce(ids, front, back);
  }

  /** The first may go to the back. */
  lemma RotateInTurn(all: seq<Player>, c: seq<Player>)
    requires InTurn(all, c) && c != []
    ensures InTurn(all, c[1..] + [c[0]])
  {
    var ids, front, back :| Rotated(ids, front, back) && Named(all, ids, c);
    if front == [] {
      assert back + [] == back && [] + back == back;
      TurnedInTurn(all, c, ids, ids, []);
    } else {
      TurnedInTurn(all, c, ids, front, back);
    }
  }

  lemma AttemptInTurn(all: seq<Player>, c: seq<Player>)
    requires InTurn(all, c) && Attempt(c).0.Some?
    ensures InTurn(all, Attempt(c).1)
  {
    var k := Partner(c[0], c[1..]);
    LeaveInTurn(all, c, k + 1);
    var d := c[..k + 1] + c[k + 2..];
    LeaveInTurn(all, d, 0);
    assert d[..0] + d[1..] == Attempt(c).1;
  }

  /** At most one player of each rank. */
  ghost predicate NoPairLeft(waiting: seq<Player>) {
    forall i, j {:trigger waiting[i], waiting[j]} :: 0 <= i < j < |waiting| ==> !Compatible(waiting[i], waiting[j])
  }

  // ---------- First come, first served ----------

  /** The player, if of that rank. */
  function Own(p: Player, rank: string): seq<Player> {
    if p.rank == rank then [p] else []
  }

  /** The players of one rank, in order. */
  function Ranked(s: seq<Player>, rank: string): seq<Player> {
    if s == [] then [] else Own(s[0], rank) + Ranked(s[1..], rank)
  }

  lemma {:induction false} RankedJoin(s: seq<Player>, t: seq<Player>, rank: string)
    ensures Ranked(s + t, rank) == Ranked(s, rank) + Ranked(t, rank)
  {
    if s == [] {
      assert s + t == t;
    } else {
      RankedJoin(s[1..], t, rank);
      var u := s + t;
      assert u[0] == s[0] && u[1..] == s[1..] + t;
      Associate(Own(s[0], rank), Ranked(s[1..], rank), Ranked(t, rank));
    }
  }

  lemma Associate(a: seq<Player>, b: seq<Player>, c: seq<Player>)
    ensures (a + b) + c == a + (b + c)
  {
  }

  lemma RankedOne(p: Player, s: seq<Player>, rank: string)
    ensures Ranked([p] + s, rank) == Own(p, rank) + Ranked(s, rank)
    ensures Ranked([p], rank) == Own(p, rank)
  {
    assert ([p] + s)[1..] == s;
  }

  lemma {:induction false} NobodyRanked(s: seq<Player>, rank: string)
    requires forall i :: 0 <= i < |s| ==> s[i].rank != rank
    ensures Ranked(s, rank) == []
  {
    if s != [] {
      NobodyRanked(s[1..], rank);
    }
  }

  /** Within every rank the players are paired in the order in which they came: the matches, read one after
      another, and then those waiting, list the players of the rank as they arrived. */
  ghost predicate InOrderOfRank(all: seq<Player>, matches: seq<Match>, waiting: seq<Player>, rank: string) {
    Ranked(Players(matches), rank) + Ranked(waiting, rank) == Ranked(all, rank)
  }

  ghost predicate FirstServed(all: seq<Player>, matches: seq<Match>, waiting: seq<Player>) {
    forall rank {:trigger InOrderOfRank(all, matches, waiting, rank)} :: InOrderOfRank(all, matches, waiting, rank)
  }

  lemma RankedPieces(p: Player, x: seq<Player>, q: Player, y: seq<Player>, rank: string)
    ensures Ranked([p] + (x + ([q] + y)), rank) ==
      Own(p, rank) + (Ranked(x, rank) + (Own(q, rank) + Ranked(y, rank)))
  {
    RankedOne(q, y, rank);
    RankedJoin(x, [q] + y, rank);
    RankedOne(p, x + ([q] + y), rank);
  }

  lemma RankedPair(p: Player, q: Player, rank: string)
    ensures Ranked([p, q], rank) == Own(p, rank) + Own(q, rank)
  {
    RankedOne(p, [q], rank);
    RankedOne(q, [], rank);
    assert [p] + [q] == [p, q];
  }

  lemma PairRanked(c: seq<Player>, k: nat, rank: string)
    requires 0 < k < |c| && c[k].rank == c[0].rank && forall i :: 0 < i < k ==> c[i].rank != c[0].rank
    ensures Ranked([c[0], c[k]], rank) + Ranked(c[1..k] + c[k + 1..], rank) == Ranked(c, rank)
  {
    var x, y := c[1..k], c[k + 1..];
    assert c == [c[0]] + (x + ([c[k]] + y));
    if c[0].rank == rank {
      NobodyRanked(x, rank);
    }
    PiecesRanked(c[0], x, c[k], y, rank);
  }

  lemma PiecesRanked(p: Player, x: seq<Player>, q: Player, y: seq<Player>, rank: string)
    requires p.rank == q.rank && (p.rank == rank ==> Ranked(x, rank) == [])
    ensures Ranked([p, q], rank) + Ranked(x + y, rank) == Ranked([p] + (x + ([q] + y)), rank)
  {
    RankedPieces(p, x, q, y, rank);
    RankedPair(p, q, rank);
    RankedJoin(x, y, rank);
    if p.rank == rank {
      PastNobody(Own(p, rank), Own(q, rank), Ranked(y, rank));
    } else {
      NothingOwn(Ranked(x, rank), Ranked(y, rank));
    }
  }

  lemma NothingOwn(x: seq<Player>, y: seq<Player>)
    ensures [] + (x + ([] + y)) == ([] + []) + (x + y)
  {
    assert [] + y == y;
  }

  lemma PastNobody(p: seq<Player>, q: seq<Player>, y: seq<Player>)
    ensures p + ([] + (q + y)) == (p + q) + ([] + y)
  {
  }

  lemma PairServed(all: seq<Player>, matches: seq<Match>, c: seq<Player>, k: nat)
    requires FirstServed(all, matches, c)
    requires 0 < k < |c| && c[k].rank == c[0].rank && forall i :: 0 < i < k ==> c[i].rank != c[0].rank
    ensures FirstServed(all, matches + [Match(c[0], c[k])], c[1..k] + c[k + 1..])
  {
    var more, rest := matches + [Match(c[0], c[k])], c[1..k] + c[k + 1..];
    assert more[..|matches|] == matches;
    forall rank ensures InOrderOfRank(all, more, rest, rank) {
      assert InOrderOfRank(all, matches, c, rank);
      PairRanked(c, k, rank);
      RankedJoin(Players(matches), [c[0], c[k]], rank);
      Associate(Ranked(Players(matches), rank), Ranked([c[0], c[k]], rank), Ranked(rest, rank));
    }
  }

  lemma TurnRanked(c: seq<Player>, rank: string)
    requires c != [] && forall i :: 0 < i < |c| ==> c[i].rank != c[0].rank
    ensures Ranked(c[1..] + [c[0]], rank) == Ranked(c, rank)
  {
    RankedJoin(c[1..], [c[0]], rank);
    RankedOne(c[0], [], rank);
    if c[0].rank == rank {
      NobodyRanked(c[1..], rank);
    }
  }

  lemma TurnServed(all: seq<Player>, matches: seq<Match>, c: seq<Player>)
    requires FirstServed(all, matches, c) && c != [] && forall i :: 0 < i < |c| ==> c[i].rank != c[0].rank
    ensures FirstServed(all, matches, c[1..] + [c[0]])
  {
    forall rank ensures InOrderOfRank(all, matches, c[1..] + [c[0]], rank) {
      assert InOrderOfRank(all, matches, c, rank);
      TurnRanked(c, rank);
    }
  }

  // ---------- The order of the matches and of those left ----------

  /** Where the one who was in front at each match stood on arrival. */
  ghost predicate FrontsOf(all: seq<Player>, matches: seq<Match>, fronts: seq<nat>) {
    && |fronts| == |matches| && Ascending(fronts)
    && forall k :: 0 <= k < |matches| ==> fronts[k] < |all| && matches[k].a == all[fronts[k]]
  }

  /** Those of late came after the last match's front, those of early before it; without a match nobody is early. */
  ghost predicate Around(fronts: seq<nat>, late: seq<nat>, early: seq<nat>) {
    && Ascending(late) && Ascending(early)
    && (fronts == [] ==> early == [])
    && (fronts != [] ==>
         var last := fronts[|fronts| - 1];
         (forall i :: 0 <= i < |late| ==> last < late[i]) && (forall i :: 0 <= i < |early| ==> early[i] < last))
  }

  /** Nobody else in ids has the rank of i. */
  ghost predicate Loner(all: seq<Player>, ids: seq<nat>, i: nat) {
    i < |all| && forall j {:trigger j in ids} :: j in ids && j != i && j < |all| ==> all[j].rank != all[i].rank
  }

  function TurnedBy(ids: seq<nat>, n: nat): seq<nat>
    requires n <= |ids|
  {
    ids[n..] + ids[..n]
  }

  /** The queue is late + early, turned by the failures since the last match; those turned and the early ones
      have nobody to pair with. */
  ghost predicate Arrivals(all: seq<Player>, matches: seq<Match>, c: seq<Player>, fronts: seq<nat>,
      late: seq<nat>, early: seq<nat>, failures: int) {
    && FrontsOf(all, matches, fronts) && Around(fronts, late, early)
    && var ids := late + early;
       && 0 <= failures <= |ids| && Named(all, TurnedBy(ids, failures), c)
       && forall p :: 0 <= p < |ids| && (p < failures || p >= |late|) ==> Loner(all, ids, ids[p])
  }

  lemma NobodyTwice(fronts: seq<nat>, late: seq<nat>, early: seq<nat>)
    requires Around(fronts, late, early)
    ensures var ids := late + early; forall p, q :: 0 <= p < q < |ids| ==> ids[p] != ids[q]
  {
  }

  lemma NamedHasIds(all: seq<Player>, ids: seq<nat>, n: nat, c: seq<Player>)
    requires n <= |ids| && Named(all, TurnedBy(ids, n), c)
    ensures |c| == |ids|
    ensures forall p :: 0 <= p < |ids| ==>
      ids[p] < |all| && c[if p >= n then p - n else p + |ids| - n] == all[ids[p]]
  {
    forall p | 0 <= p < |ids|
      ensures ids[p] < |all| && c[if p >= n then p - n else p + |ids| - n] == all[ids[p]]
    {
      assert TurnedBy(ids, n)[if p >= n then p - n else p + |ids| - n] == ids[p];
    }
  }

  lemma ArrivalsMissed(all: seq<Player>, matches: seq<Match>, c: seq<Player>, fronts: seq<nat>,
      late: seq<nat>, early: seq<nat>, failures: int)
    requires Arrivals(all, matches, c, fronts, late, early, failures) && failures < |c|
    requires forall i :: 0 < i < |c| ==> c[i].rank != c[0].rank
    ensures Arrivals(all, matches, c[1..] + [c[0]], fronts, late, early, failures + 1)
  {
    var ids := late + early;
    NamedHasIds(all, ids, failures, c);
    NobodyTwice(fronts, late, early);
    forall j | j in ids && j != ids[failures] && j < |all| ensures all[j].rank != all[ids[failures]].rank {
      var p :| 0 <= p < |ids| && ids[p] == j;
      assert c[if p >= failures then p - failures else p + |ids| - failures] == all[j];
    }
    NamedRotated(all, TurnedBy(ids, failures), c);
    var t := TurnedBy(ids, failures);
    assert t[1..] + [t[0]] == TurnedBy(ids, failures + 1);
  }

  /** A match can only be made with someone late in front. */
  lemma FrontIsLate(all: seq<Player>, matches: seq<Match>, c: seq<Player>, fronts: seq<nat>,
      late: seq<nat>, early: seq<nat>, failures: int, k: nat)
    requires Arrivals(all, matches, c, fronts, late, early, failures) && failures < |c|
    requires 0 < k < |c| && c[k].rank == c[0].rank
    ensures failures + k < |late| && late[failures] < |all| && c[0] == all[late[failures]]
  {
    var ids := late + early;
    var n := |ids|;
    NamedHasIds(all, ids, failures, c);
    NobodyTwice(fronts, late, early);
    var q := if failures + k < n then failures + k else failures + k - n;
    assert c[0] == all[ids[failures]] && c[k] == all[ids[q]];
    assert ids[q] in ids && ids[failures] in ids && ids[q] != ids[failures];
    assert !Loner(all, ids, ids[failures]) && !Loner(all, ids, ids[q]);
  }

  lemma Fewer(all: seq<Player>, ids: seq<nat>, rest: seq<nat>, i: nat)
    requires Loner(all, ids, i) && forall j :: j in rest ==> j in ids
    ensures Loner(all, rest, i)
  {
  }

  lemma FrontsOfMore(all: seq<Player>, matches: seq<Match>, fronts: seq<nat>, m: Match, i: nat)
    requires FrontsOf(all, matches, fronts) && i < |all| && m.a == all[i]
    requires fronts != [] ==> fronts[|fronts| - 1] < i
    ensures FrontsOf(all, matches + [m], fronts + [i])
  {
  }

  /** Those left of the late ones behind place g, without it, and the early ones with those before place f. */
  predicate Moved(late: seq<nat>, early: seq<nat>, f: nat, g: nat, later: seq<nat>, earlier: seq<nat>) {
    f < g < |late| && later == late[f + 1..g] + late[g + 1..] && earlier == early + late[..f]
  }

  lemma AroundNext(fronts: seq<nat>, late: seq<nat>, early: seq<nat>, f: nat, g: nat,
      later: seq<nat>, earlier: seq<nat>)
    requires Around(fronts, late, early) && Moved(late, early, f, g, later, earlier)
    ensures Around(fronts + [late[f]], later, earlier)
  {
    DropKeepsOrder(late, g);
    assert later == (late[..g] + late[g + 1..])[f + 1..];
    forall i, j | 0 <= i < j < |earlier| ensures earlier[i] < earlier[j] {
      assert earlier[j] == if j < |early| then early[j] else late[j - |early|];
    }
  }

  /** Who is still there, in the turned queue without its first and its k-th. */
  lemma NamedWithoutPair(all: seq<Player>, ids: seq<nat>, c: seq<Player>, k: nat)
    requires Named(all, ids, c) && 0 < k < |c|
    ensures Named(all, ids[1..k] + ids[k + 1..], c[1..k] + c[k + 1..])
  {
  }

  lemma TurnedWithoutPair(late: seq<nat>, early: seq<nat>, f: nat, k: nat, later: seq<nat>, earlier: seq<nat>)
    requires Moved(late, early, f, f + k, later, earlier)
    ensures var t := TurnedBy(late + early, f); t[1..k] + t[k + 1..] == later + earlier
  {
    var t := TurnedBy(late + early, f);
    assert t == late[f..] + earlier;
    assert t[1..k] == late[f + 1..f + k];
    assert t[k + 1..] == late[f + k + 1..] + earlier;
  }

  /** Everyone early now was early or passed over before, and so has nobody to pair with. */
  lemma EarlyAreLoners(all: seq<Player>, late: seq<nat>, early: seq<nat>, f: nat, g: nat,
      later: seq<nat>, earlier: seq<nat>)
    requires Moved(late, early, f, g, later, earlier)
    requires var ids := late + early;
      forall p :: 0 <= p < |ids| && (p < f || p >= |late|) ==> Loner(all, ids, ids[p])
    ensures forall i :: i in earlier ==> Loner(all, later + earlier, i)
  {
    var ids, rest := late + early, later + earlier;
    assert forall j :: j in rest ==> j in late || j in early;
    assert forall j :: j in late || j in early ==> j in ids;
    forall i | i in earlier ensures Loner(all, rest, i) {
      var e :| 0 <= e < |earlier| && earlier[e] == i;
      var p := if e < |early| then |late| + e else e - |early|;
      assert ids[p] == i;
      Fewer(all, ids, rest, i);
    }
  }

  lemma StartsAgain(all: seq<Player>, matches: seq<Match>, c: seq<Player>, fronts: seq<nat>,
      late: seq<nat>, early: seq<nat>)
    requires FrontsOf(all, matches, fronts) && Around(fronts, late, early) && Named(all, late + early, c)
    requires forall i :: i in early ==> Loner(all, late + early, i)
    ensures Arrivals(all, matches, c, fronts, late, early, 0)
  {
    var ids := late + early;
    assert TurnedBy(ids, 0) == ids;
    assert forall p :: |late| <= p < |ids| ==> ids[p] in early;
  }

  /** After a match those passed over since the last one are early too. */
  lemma ArrivalsMatched(all: seq<Player>, matches: seq<Match>, c: seq<Player>, fronts: seq<nat>,
      late: seq<nat>, early: seq<nat>, f: nat, k: nat, m: Match, later: seq<nat>, earlier: seq<nat>)
    requires Arrivals(all, matches, c, fronts, late, early, f) && Moved(late, early, f, f + k, later, earlier)
    requires 0 < k < |c| && late[f] < |all| && m.a == all[late[f]]
    ensures Arrivals(all, matches + [m], c[1..k] + c[k + 1..], fronts + [late[f]], later, earlier, 0)
  {
    FrontsOfMore(all, matches, fronts, m, late[f]);
    AroundNext(fronts, late, early, f, f + k, later, earlier);
    TurnedWithoutPair(late, early, f, k, later, earlier);
    NamedWithoutPair(all, TurnedBy(late + early, f), c, k);
    EarlyAreLoners(all, late, early, f, f + k, later, earlier);
    StartsAgain(all, matches + [m], c[1..k] + c[k + 1..], fronts + [late[f]], later, earlier);
  }

  ghost predicate Arrived(all: seq<Player>, matches: seq<Match>, c: seq<Player>, failures: int) {
    exists fronts, late, early :: Arrivals(all, matches, c, fronts, late, early, failures)
  }

  lemma ArrivedMatched(all: seq<Player>, matches: seq<Match>, c: seq<Player>, failures: int, k: nat)
    requires Arrived(all, matches, c, failures) && failures < |c| && 0 < k < |c| && c[k].rank == c[0].rank
    ensures Arrived(all, matches + [Match(c[0], c[k])], c[1..k] + c[k + 1..], 0)
  {
    var fronts, late, early :| Arrivals(all, matches, c, fronts, late, early, failures);
    FrontIsLate(all, matches, c, fronts, late, early, failures, k);
    ArrivalsMatched(all, matches, c, fronts, late, early, failures, k, Match(c[0], c[k]),
      late[failures + 1..failures + k] + late[failures + k + 1..], early + late[..failures]);
  }

  lemma ArrivedMissed(all: seq<Player>, matches: seq<Match>, c: seq<Player>, failures: int)
    requires Arrived(all, matches, c, failures) && failures < |c|
    requires forall i :: 0 < i < |c| ==> c[i].rank != c[0].rank
    ensures Arrived(all, matches, c[1..] + [c[0]], failures + 1)
  {
    var fronts, late, early :| Arrivals(all, matches, c, fronts, late, early, failures);
    ArrivalsMissed(all, matches, c, fronts, late, early, failures);
  }

  /** The matches stand in the order in which their front players came; those waiting stand as they came, but
      that whoever came before the last match's front player stands behind those who came after. */
  ghost predicate MatchedInTurn(all: seq<Player>, matches: seq<Match>, waiting: seq<Player>) {
    exists fronts, late, early ::
      FrontsOf(all, matches, fronts) && Around(fronts, late, early) && Named(all, late + early, waiting)
  }

  lemma ArrivedAtEnd(all: seq<Player>, matches: seq<Match>, c: seq<Player>, failures: int)
    requires Arrived(all, matches, c, failures) && (failures >= |c| || |c| < 2)
    ensures MatchedInTurn(all, matches, c)
  {
    var fronts, late, early :| Arrivals(all, matches, c, fronts, late, early, failures);
    var ids := late + early;
    NamedHasIds(all, ids, failures, c);
    assert TurnedBy(ids, failures) == ids;
  }

  lemma StartsArrived(all: seq<Player>)
    ensures Arrived(all, [], all, 0)
  {
    var ids := UpTo(|all|);
    assert ids + [] == ids && TurnedBy(ids, 0) == ids;
    assert Arrivals(all, [], all, [], ids, [], 0);
  }

  // ---------- The loop ----------

  /** What every turn of the loop keeps. */
  ghost predicate Underway(all: seq<Player>, matches: seq<Match>, c: seq<Player>, failures: int) {
    OnCourse(all, matches, c, failures)
  }

  ghost predicate OnCourse(all: seq<Player>, matches: seq<Match>, c: seq<Player>, failures: int) {
    && failures >= 0 && Hopeless(c, failures) && Conserves(all, matches, c) && InTurn(all, c)
    && FirstServed(all, matches, c) && Arrived(all, matches, c, failures)
  }

  lemma Matched(all: seq<Player>, matches: seq<Match>, c: seq<Player>, failures: int)
    requires Underway(all, matches, c, failures) && Attempt(c).0.Some? && failures < |c|
    ensures Underway(all, matches + [Attempt(c).0.value], Attempt(c).1, 0)
  {
    AttemptConserves(all, matches, c);
    AttemptInTurn(all, c);
    AttemptPairs(c);
    var k :| PairsWith(c, k) && FirstOfRank(c, k) && Attempt(c) == (Some(Match(c[0], c[k])), c[1..k] + c[k + 1..]);
    PairServed(all, matches, c, k);
    ArrivedMatched(all, matches, c, failures, k);
  }

  lemma Missed(all: seq<Player>, matches: seq<Match>, c: seq<Player>, failures: int)
    requires Underway(all, matches, c, failures) && Attempt(c).0.None? && failures < |c|
    ensures Underway(all, matches, c[1..] + [c[0]], failures + 1)
  {
    AttemptFailed(c, failures);
    RotateInTurn(all, c);
    assert multiset(c[1..] + [c[0]]) == multiset(c) by {
      assert c == [c[0]] + c[1..];
    }
    NobodyPairs(c);
    TurnServed(all, matches, c);
    ArrivedMissed(all, matches, c, failures);
  }

  lemma NobodyPairs(c: seq<Player>)
    requires Attempt(c).0.None?
    ensures forall i :: 0 < i < |c| ==> c[i].rank != c[0].rank
  {
    AttemptPairs(c);
    forall i | 0 < i < |c| ensures c[i].rank != c[0].rank {
      assert !PairsWith(c, i);
    }
  }

  method SendToBack(q: Queue<Player>)
    requires q.Valid() && q.Contents() != []
    modifies q, q.items
    ensures q.Valid() && (q.items == old(q.items) || fresh(q.items))
    ensures var c := old(q.Contents()); q.Contents() == c[1..] + [c[0]]
  {
    var front := q.Pop();
    q.Push(front.value);
  }

  /** One attempt, and the front player sent to the back if it fails. */
  method Turn(q: Queue<Player>, failures: int, ghost all: seq<Player>,
      ghost matches: seq<Match>) returns (made: Option<Match>)
    requires q.Valid() && Underway(all, matches, q.Contents(), failures) && failures < |q.Contents()|
    modifies q, q.items
    ensures q.Valid() && (q.items == old(q.items) || fresh(q.items))
    ensures made.Some? ==>
      Underway(all, matches + [made.value], q.Contents(), 0) && |q.Contents()| < |old(q.Contents())|
    ensures made.None? ==>
      Underway(all, matches, q.Contents(), failures + 1) && |q.Contents()| == |old(q.Contents())|
  {
    ghost var c := q.Contents();
    made := TakePair(q);
    if made.Some? {
      Matched(all, matches, c, failures);
    } else {
      Missed(all, matches, c, failures);
      SendToBack(q);
    }
  }

  lemma StartsServed(all: seq<Player>)
    ensures FirstServed(all, [], all)
  {
    forall rank ensures InOrderOfRank(all, [], all, rank) {
      assert Ranked(Players([]), rank) == [];
    }
  }

  lemma StartsUnderway(all: seq<Player>)
    ensures Underway(all, [], all, 0)
  {
    StartsInTurn(all);
    StartsArrived(all);
    StartsServed(all);
    assert multiset(Players([])) + multiset(all) == multiset(all);
  }

  /** Matches until a whole pass has found nobody to pair. */
  method MatchAll(q: Queue<Player>) returns (matches: seq<Match>, waiting: seq<Player>)
    requires q.Valid()
    modifies q, q.items
    ensures q.Valid() && waiting == q.Contents()
    ensures Conserves(old(q.Contents()), matches, waiting)
    ensures NoPairLeft(waiting)
    ensures InTurn(old(q.Contents()), waiting)
    ensures FirstServed(old(q.Contents()), matches, waiting)
    ensures MatchedInTurn(old(q.Contents()), matches, waiting)
    ensures forall i :: 0 <= i < |matches| ==> matches[i].a.rank == matches[i].b.rank
    ensures forall i, j :: 0 <= i < j < |waiting| ==> waiting[i].rank != waiting[j].rank
    ensures 2 * |matches| + |waiting| == |old(q.Contents())|
  {
    ghost var all := q.Contents();
    ghost var failures;
    matches, failures := MatchUntilStuck(q);
    waiting := q.Slice();
    Finished(all, matches, waiting, failures);
  }

  /** The loop: a match starts the count of failures again. */
  method MatchUntilStuck(q: Queue<Player>) returns (matches: seq<Match>, ghost misses: int)
    requires q.Valid()
    modifies q, q.items
    ensures q.Valid() && Underway(old(q.Contents()), matches, q.Contents(), misses)
    ensures misses >= |q.Contents()| || |q.Contents()| < 2
  {
    ghost var all := q.Contents();
    StartsUnderway(all);
    matches := [];
    var failures := 0;
    while q.count >= 2 && failures < q.count
      invariant q.Valid() && (q.items == old(q.items) || fresh(q.items))
      invariant Underway(all, matches, q.Contents(), failures)
      decreases |q.Contents()|, |q.Contents()| - failures
    {
      var made := Turn(q, failures, all, matches);
      if made.Some? {
        matches := matches + [made.value];
        failures := 0;
      } else {
        failures := failures + 1;
      }
    }
    misses := failures;
  }

  /** What holds when the loop ends. */
  lemma Finished(all: seq<Player>, matches: seq<Match>, c: seq<Player>, failures: int)
    requires Underway(all, matches, c, failures) && (failures >= |c| || |c| < 2)
    ensures NoPairLeft(c) && MatchedInTurn(all, matches, c)
    ensures 2 * |matches| + |c| == |all|
    ensures forall i :: 0 <= i < |matches| ==> matches[i].a.rank == matches[i].b.rank
    ensures forall i, j :: 0 <= i < j < |c| ==> c[i].rank != c[j].rank
  {
    MatchesCounted(all, matches, c);
    ArrivedAtEnd(all, matches, c, failures);
  }

  lemma {:induction false} PlayersCounted(matches: seq<Match>)
    ensures |Players(matches)| == 2 * |matches|
  {
    if matches != [] {
      PlayersCounted(matches[..|matches| - 1]);
    }
  }

  lemma MatchesCounted(all: seq<Player>, matches: seq<Match>, waiting: seq<Player>)
    requires Conserves(all, matches, waiting) && NoPairLeft(waiting)
    ensures 2 * |matches| + |waiting| == |all|
    ensures forall i :: 0 <= i < |matches| ==> matches[i].a.rank == matches[i].b.rank
    ensures forall i, j :: 0 <= i < j < |waiting| ==> waiting[i].rank != waiting[j].rank
  {
    PlayersCounted(matches);
    assert |multiset(Players(matches)) + multiset(waiting)| == |all|;
    forall i, j | 0 <= i < j < |waiting| ensures waiting[i].rank != waiting[j].rank {
      assert !Compatible(waiting[i], waiting[j]);
    }
  }

  // ---------- No pairing does better ----------

  function OfRank(s: seq<Player>, rank: string): nat {
    if s == [] then 0 else OfRank(s[..|s| - 1], rank) + if s[|s| - 1].rank == rank then 1 else 0
  }

  lemma SameRest(x: multiset<Player>, y: multiset<Player>, p: Player)
    requires x + multiset{p} == y + multiset{p}
    ensures x == y
  {
    assert x == (x + multiset{p}) - multiset{p} && y == (y + multiset{p}) - multiset{p};
  }

  lemma WithoutOne(t: seq<Player>, i: nat, rank: string)
    requires i < |t|
    ensures var rest := t[..i] + t[i + 1..];
      multiset(t) == multiset(rest) + multiset{t[i]} &&
      OfRank(t, rank) == OfRank(rest, rank) + if t[i].rank == rank then 1 else 0
  {
    var x, y := t[..i], t[i + 1..];
    assert t == x + [t[i]] + y;
    assert multiset(x + y) == multiset(x) + multiset(y);
    OfRankJoin(x, y, rank);
    OfRankJoin(x + [t[i]], y, rank);
    OfRankJoin(x, [t[i]], rank);
    assert [t[i]][..0] == [];
  }

  lemma {:induction false} OfRankInBag(s: seq<Player>, t: seq<Player>, rank: string)
    requires multiset(s) == multiset(t)
    ensures OfRank(s, rank) == OfRank(t, rank)
    decreases |s|
  {
    assert |s| == |multiset(s)| == |multiset(t)| == |t|;
    if s != [] {
      var n := |s| - 1;
      assert s[n] in multiset(t);
      var i :| 0 <= i < |t| && t[i] == s[n];
      WithoutOne(s, n, rank);
      WithoutOne(t, i, rank);
      var front, rest := s[..n] + s[n + 1..], t[..i] + t[i + 1..];
      SameRest(multiset(front), multiset(rest), s[n]);
      OfRankInBag(front, rest, rank);
    }
  }

  lemma {:induction false} OfRankJoin(s: seq<Player>, t: seq<Player>, rank: string)
    ensures OfRank(s + t, rank) == OfRank(s, rank) + OfRank(t, rank)
  {
    if t == [] {
      assert s + t == s;
    } else {
      OfRankJoin(s, t[..|t| - 1], rank);
      assert (s + t)[..|s + t| - 1] == s + t[..|t| - 1];
    }
  }

  /** Matched players of a rank come in pairs. */
  lemma {:induction false} PairsAreEven(matches: seq<Match>, rank: string) returns (half: nat)
    requires Fair(matches)
    ensures OfRank(Players(matches), rank) == 2 * half && |Players(matches)| == 2 * |matches|
  {
    half := 0;
    if matches != [] {
      var front, m := matches[..|matches| - 1], matches[|matches| - 1];
      half := PairsAreEven(front, rank);
      OfRankJoin(Players(front), [m.a, m.b], rank);
      OfRankTwo(m.a, m.b, rank);
      half := half + if m.a.rank == rank then 1 else 0;
    }
  }

  lemma OfRankTwo(a: Player, b: Player, rank: string)
    requires Compatible(a, b)
    ensures OfRank([a, b], rank) == if a.rank == rank then 2 else 0
  {
    assert [a, b] == [a] + [b] && [a][..0] == [] && [b][..0] == [];
    OfRankJoin([a], [b], rank);
  }

  function Ranks(s: seq<Player>): set<string> {
    set i | 0 <= i < |s| :: s[i].rank
  }

  lemma {:induction false} RanksCount(s: seq<Player>)
    ensures |Ranks(s)| <= |s|
    ensures NoPairLeft(s) ==> |Ranks(s)| == |s|
  {
    if s != [] {
      var front := s[..|s| - 1];
      RanksCount(front);
      assert Ranks(s) == Ranks(front) + {s[|s| - 1].rank};
    }
  }

  lemma {:induction false} RankIsThere(s: seq<Player>, rank: string)
    ensures OfRank(s, rank) > 0 <==> rank in Ranks(s)
  {
    if s != [] {
      var front := s[..|s| - 1];
      RankIsThere(front, rank);
      assert Ranks(s) == Ranks(front) + {s[|s| - 1].rank};
    }
  }

  lemma {:induction false} RankOnce(s: seq<Player>, rank: string)
    requires NoPairLeft(s)
    ensures OfRank(s, rank) <= 1
  {
    if s != [] {
      var front := s[..|s| - 1];
      RankOnce(front, rank);
      RankIsThere(front, rank);
    }
  }

  /** With nobody left to pair, no other pairing of the same players makes more matches. */
  lemma MatchesAreMost(all: seq<Player>, matches: seq<Match>, waiting: seq<Player>, other: seq<Match>,
      rest: seq<Player>)
    requires Conserves(all, matches, waiting) && NoPairLeft(waiting)
    requires Conserves(all, other, rest)
    ensures |other| <= |matches|
  {
    forall rank | rank in Ranks(waiting) ensures rank in Ranks(rest) {
      OddRankWaits(all, matches, waiting, other, rest, rank);
    }
    RanksCount(waiting);
    RanksCount(rest);
    SubsetIsNoLarger(Ranks(waiting), Ranks(rest));
    TotalPlayers(all, matches, waiting);
    TotalPlayers(all, other, rest);
  }

  lemma TotalPlayers(all: seq<Player>, matches: seq<Match>, waiting: seq<Player>)
    requires Conserves(all, matches, waiting)
    ensures |all| == 2 * |matches| + |waiting|
  {
    var half := PairsAreEven(matches, "");
    assert |all| == |multiset(all)| == |multiset(Players(matches))| + |multiset(waiting)|;
  }

  lemma RankParity(all: seq<Player>, matches: seq<Match>, waiting: seq<Player>, rank: string) returns (half: nat)
    requires Conserves(all, matches, waiting)
    ensures OfRank(all, rank) == 2 * half + OfRank(waiting, rank)
  {
    half := PairsAreEven(matches, rank);
    OfRankInBag(all, Players(matches) + waiting, rank);
    OfRankJoin(Players(matches), waiting, rank);
  }

  lemma OddRankWaits(all: seq<Player>, matches: seq<Match>, waiting: seq<Player>, other: seq<Match>,
      rest: seq<Player>, rank: string)
    requires Conserves(all, matches, waiting) && NoPairLeft(waiting) && Conserves(all, other, rest)
    requires rank in Ranks(waiting)
    ensures rank in Ranks(rest)
  {
    RankIsThere(waiting, rank);
    RankOnce(waiting, rank);
    RankIsThere(rest, rank);
    var h := RankParity(all, matches, waiting, rank);
    var k := RankParity(all, other, rest, rank);
  }
}
