/** The `liquidate_perp` instruction builder: the ordered, deduplicated remaining accounts and the
    argument encoding. Program-derived addresses are parameters. */
module LiquidatePerp {
  import opened Common
  import opened ByteStrings

  type Pubkey = k: Bytes | |k| == 32 witness Zeros(32)

  datatype RemainingAccount =
    | Oracle(pubkey: Pubkey)
    | Spot(pubkey: Pubkey, writable: bool)
    | Perp(pubkey: Pubkey, writable: bool)

  datatype AccountMeta = AccountMeta(pubkey: Pubkey, isSigner: bool, isWritable: bool)

  datatype MarketInfo = MarketInfo(pubkey: Pubkey, oracle: Pubkey)

  datatype Markets = Markets(perps: map<U16, MarketInfo>, spots: map<U16, MarketInfo>)

  datatype Position = Position(marketIndex: U16, available: bool)

  datatype User = User(spotPositions: seq<Position>, perpPositions: seq<Position>)

  // ---------------------------------------------------------------- order

  function Rank(a: RemainingAccount): nat {
    match a case Oracle(_) => 0 case Spot(_, _) => 1 case Perp(_, _) => 2
  }

  /** What the ordering looks at: the kind, then the key; never the writable flag. */
  type Id = (nat, Pubkey)

  function IdOf(a: RemainingAccount): Id { (Rank(a), a.pubkey) }

  predicate IsWritable(a: RemainingAccount) { !a.Oracle? && a.writable }

  /** Lexicographic order of byte strings. */
  predicate BytesLess(a: Bytes, b: Bytes)
    decreases |a|
  {
    b != [] && (a == [] || a[0] < b[0] || (a[0] == b[0] && BytesLess(a[1..], b[1..])))
  }

  predicate Less(x: Id, y: Id) {
    x.0 < y.0 || (x.0 == y.0 && BytesLess(x.1, y.1))
  }

  lemma {:induction false} BytesLessTotal(a: Bytes, b: Bytes)
    ensures BytesLess(a, b) || a == b || BytesLess(b, a)
    ensures !(BytesLess(a, b) && BytesLess(b, a)) && !BytesLess(a, a)
    decreases |a|
  {
    if a != [] {
      if b != [] {
        BytesLessTotal(a[1..], b[1..]);
        assert a[0] == b[0] && a[1..] == b[1..] ==> a == b by {
          assert a == [a[0]] + a[1..] && b == [b[0]] + b[1..];
        }
      }
      BytesLessTotal(a[1..], a[1..]);
    }
  }

  lemma {:induction false} BytesLessTransitive(a: Bytes, b: Bytes, c: Bytes)
    requires BytesLess(a, b) && BytesLess(b, c)
    ensures BytesLess(a, c)
    decreases |a|
  {
    if a != [] && a[0] == b[0] && b[0] == c[0] {
      BytesLessTransitive(a[1..], b[1..], c[1..]);
    }
  }

  /** The comparison is a strict total order on (kind, key). */
  lemma LessIsOrder(x: Id, y: Id, z: Id)
    ensures Less(x, y) || x == y || Less(y, x)
    ensures !(Less(x, y) && Less(y, x)) && !Less(x, x)
    ensures Less(x, y) && Less(y, z) ==> Less(x, z)
  {
    BytesLessTotal(x.1, y.1);
    if BytesLess(x.1, y.1) && BytesLess(y.1, z.1) {
      BytesLessTransitive(x.1, y.1, z.1);
    }
  }

  /** The first byte in which two keys differ decides. */
  lemma {:induction false} BytesLessAt(a: Bytes, b: Bytes) returns (n: nat)
    requires |a| == |b| && BytesLess(a, b)
    ensures n < |a| && a[..n] == b[..n] && a[n] < b[n]
    decreases |a|
  {
    n := 0;
    if a[0] == b[0] {
      var m := BytesLessAt(a[1..], b[1..]);
      n := m + 1;
      assert a[..n] == [a[0]] + a[1..][..m] && b[..n] == [b[0]] + b[1..][..m];
    }
  }

  // ---------------------------------------------------------------- the ordered set

  ghost predicate Sorted(s: seq<RemainingAccount>) {
    forall i, j :: 0 <= i < j < |s| ==> Less(IdOf(s[i]), IdOf(s[j]))
  }

  /** Oracles, then spot markets, then perp markets, and in each group the keys ascend. */
  lemma SortedGroups(s: seq<RemainingAccount>, i: nat, j: nat) returns (n: nat)
    requires Sorted(s) && i < j < |s|
    ensures s[j].Oracle? ==> s[i].Oracle?
    ensures s[j].Spot? ==> !s[i].Perp?
    ensures (s[i].Oracle? <==> s[j].Oracle?) && (s[i].Perp? <==> s[j].Perp?) ==>
      n < 32 && s[i].pubkey[..n] == s[j].pubkey[..n] && s[i].pubkey[n] < s[j].pubkey[n]
  {
    n := 0;
    if Rank(s[i]) == Rank(s[j]) {
      n := BytesLessAt(s[i].pubkey, s[j].pubkey);
    }
  }

  function Ids(s: seq<RemainingAccount>): set<Id> { set a | a in s :: IdOf(a) }

  /** Ordered-set insertion: an element comparing equal to a present one is discarded. */
  function Insert(s: seq<RemainingAccount>, x: RemainingAccount): seq<RemainingAccount> {
    if s == [] then [x]
    else if IdOf(x) == IdOf(s[0]) then s
    else if Less(IdOf(x), IdOf(s[0])) then [x] + s
    else [s[0]] + Insert(s[1..], x)
  }

  lemma {:induction false} InsertMembers(s: seq<RemainingAccount>, x: RemainingAccount)
    ensures forall a :: a in s ==> a in Insert(s, x)
    ensures forall a :: a in Insert(s, x) ==> a in s || a == x
    ensures exists a :: a in Insert(s, x) && IdOf(a) == IdOf(x)
  {
    if s == [] {
      assert x in Insert(s, x);
    } else if IdOf(x) == IdOf(s[0]) {
      assert s[0] in Insert(s, x);
    } else if Less(IdOf(x), IdOf(s[0])) {
      assert Insert(s, x)[0] == x;
    } else {
      InsertMembers(s[1..], x);
      assert s == [s[0]] + s[1..];
      var a :| a in Insert(s[1..], x) && IdOf(a) == IdOf(x);
      assert a in Insert(s, x);
    }
  }

  lemma InsertIds(s: seq<RemainingAccount>, x: RemainingAccount)
    ensures Ids(Insert(s, x)) == Ids(s) + {IdOf(x)}
  {
    InsertMembers(s, x);
    forall id | id in Ids(s)
      ensures id in Ids(Insert(s, x))
    {
      var a :| a in s && IdOf(a) == id;
      assert a in Insert(s, x);
    }
  }

  lemma SortedCons(a: RemainingAccount, s: seq<RemainingAccount>)
    requires Sorted(s) && forall b :: b in s ==> Less(IdOf(a), IdOf(b))
    ensures Sorted([a] + s)
  {
  }

  lemma {:induction false} InsertSorted(s: seq<RemainingAccount>, x: RemainingAccount)
    requires Sorted(s)
    ensures Sorted(Insert(s, x))
  {
    if s != [] && IdOf(x) != IdOf(s[0]) {
      assert forall b :: b in s[1..] ==> Less(IdOf(s[0]), IdOf(b)) by {
        forall b | b in s[1..] ensures Less(IdOf(s[0]), IdOf(b)) {
          var j :| 0 <= j < |s[1..]| && s[1..][j] == b;
          assert s[j + 1] == b;
        }
      }
      if Less(IdOf(x), IdOf(s[0])) {
        forall b | b in s
          ensures Less(IdOf(x), IdOf(b))
        {
          assert b == s[0] || b in s[1..];
          LessIsOrder(IdOf(x), IdOf(s[0]), IdOf(b));
        }
        SortedCons(x, s);
      } else {
        LessIsOrder(IdOf(x), IdOf(s[0]), IdOf(x));
        InsertSorted(s[1..], x);
        InsertMembers(s[1..], x);
        SortedCons(s[0], Insert(s[1..], x));
      }
    }
  }

  // ---------------------------------------------------------------- which accounts

  /** The two accounts a market brings along: itself and its oracle. */
  function MarketIds(kind: nat, m: MarketInfo): set<Id> { {(kind, m.pubkey), (0, m.oracle)} }

  predicate Cached(ps: seq<Position>, ms: map<U16, MarketInfo>) {
    forall p :: p in ps && !p.available ==> p.marketIndex in ms
  }

  /** Accounts touched by the open positions among `ps`. */
  function Touched(kind: nat, ps: seq<Position>, ms: map<U16, MarketInfo>): set<Id>
    requires Cached(ps, ms)
  {
    if ps == [] then {}
    else
      var n := |ps| - 1;
      assert ps[n] in ps && forall p :: p in ps[..n] ==> p in ps;
      Touched(kind, ps[..n], ms) + (if ps[n].available then {} else MarketIds(kind, ms[ps[n].marketIndex]))
  }

  /** Exactly the markets, with their oracles, of the positions that are open. */
  lemma {:induction false} TouchedExact(kind: nat, ps: seq<Position>, ms: map<U16, MarketInfo>, id: Id)
    requires Cached(ps, ms)
    ensures id in Touched(kind, ps, ms) <==>
      exists p :: p in ps && !p.available && id in MarketIds(kind, ms[p.marketIndex])
  {
    if ps != [] {
      var n := |ps| - 1;
      assert ps[n] in ps && forall p :: p in ps[..n] ==> p in ps;
      assert forall p :: p in ps ==> p == ps[n] || p in ps[..n];
      TouchedExact(kind, ps[..n], ms, id);
    }
  }

  predicate UserCached(u: User, m: Markets) {
    Cached(u.spotPositions, m.spots) && Cached(u.perpPositions, m.perps)
  }

  function UserIds(u: User, m: Markets): set<Id>
    requires UserCached(u, m)
  {
    Touched(1, u.spotPositions, m.spots) + Touched(2, u.perpPositions, m.perps)
  }

  /** The set under construction: sorted, with exactly `ids`, the target perp market its only writable entry. */
  ghost predicate Collected(ra: seq<RemainingAccount>, ids: set<Id>, target: Pubkey) {
    && Sorted(ra) && Ids(ra) == ids
    && Perp(target, true) in ra
    && forall a :: a in ra && IsWritable(a) ==> a == Perp(target, true)
  }

  method InsertMarket(
    ra: seq<RemainingAccount>, market: RemainingAccount, m: MarketInfo, ghost ids: set<Id>, ghost target: Pubkey)
    returns (r: seq<RemainingAccount>)
    requires Collected(ra, ids, target) && !IsWritable(market) && market.pubkey == m.pubkey
    ensures Collected(r, ids + MarketIds(Rank(market), m), target)
  {
    var first := Insert(ra, market);
    r := Insert(first, Oracle(m.oracle));
    InsertSorted(ra, market);
    InsertSorted(first, Oracle(m.oracle));
    InsertIds(ra, market);
    InsertIds(first, Oracle(m.oracle));
    InsertMembers(ra, market);
    InsertMembers(first, Oracle(m.oracle));
  }

  method InsertPositions(
    input: seq<RemainingAccount>, perp: bool, ps: seq<Position>, ms: map<U16, MarketInfo>,
    ghost ids: set<Id>, ghost target: Pubkey)
    returns (ra: seq<RemainingAccount>)
    requires Collected(input, ids, target) && Cached(ps, ms)
    ensures Collected(ra, ids + Touched(if perp then 2 else 1, ps, ms), target)
  {
    ra := input;
    ghost var kind := if perp then 2 else 1;
    assert ids + {} == ids;
    for i := 0 to |ps|
      invariant Cached(ps[..i], ms)
      invariant Collected(ra, ids + Touched(kind, ps[..i], ms), target)
    {
      assert ps[i] in ps && ps[..i + 1][..i] == ps[..i];
      ghost var before := Touched(kind, ps[..i], ms);
      if !ps[i].available {
        var m := ms[ps[i].marketIndex];
        var market := if perp then Perp(m.pubkey, false) else Spot(m.pubkey, false);
        ra := InsertMarket(ra, market, m, ids + before, target);
        assert ids + before + MarketIds(kind, m) == ids + (before + MarketIds(kind, m));
      } else {
        assert ids + (before + {}) == ids + before;
      }
    }
    assert ps[..|ps|] == ps;
  }

  /** Target, quote and touched markets, each with its oracle. */
  function InstructionIds(liquidator: User, liquidatee: User, marketIndex: U16, markets: Markets): set<Id>
    requires UserCached(liquidator, markets) && UserCached(liquidatee, markets)
    requires marketIndex in markets.perps && 0 in markets.spots
  {
    MarketIds(2, markets.perps[marketIndex]) + UserIds(liquidator, markets) + UserIds(liquidatee, markets)
    + MarketIds(1, markets.spots[0])
  }

  /** The remaining accounts of the instruction: strictly increasing by (kind, key), exactly the target,
      the quote market and every market open in either account, each with its oracle, and writable in
      the target perp market alone, although it may also be open in an account. */
  method RemainingAccounts(liquidator: User, liquidatee: User, marketIndex: U16, markets: Markets)
    returns (ra: seq<RemainingAccount>)
    requires UserCached(liquidator, markets) && UserCached(liquidatee, markets)
    requires marketIndex in markets.perps && 0 in markets.spots
    ensures Collected(ra, InstructionIds(liquidator, liquidatee, marketIndex, markets),
                      markets.perps[marketIndex].pubkey)
  {
    var perp := markets.perps[marketIndex];
    ghost var target := perp.pubkey;
    ra := Insert(Insert([], Perp(perp.pubkey, true)), Oracle(perp.oracle));
    FirstTwo(perp);
    ghost var ids := MarketIds(2, perp);
    ra := InsertUser(ra, liquidator, markets, ids, target);
    ids := ids + UserIds(liquidator, markets);
    ra := InsertUser(ra, liquidatee, markets, ids, target);
    ids := ids + UserIds(liquidatee, markets);
    var q := markets.spots[0];
    ra := InsertMarket(ra, Spot(q.pubkey, false), q, ids, target);
  }

  method InsertUser(input: seq<RemainingAccount>, u: User, markets: Markets, ghost ids: set<Id>, ghost target: Pubkey)
    returns (ra: seq<RemainingAccount>)
    requires Collected(input, ids, target) && UserCached(u, markets)
    ensures Collected(ra, ids + UserIds(u, markets), target)
  {
    ra := InsertPositions(input, false, u.spotPositions, markets.spots, ids, target);
    ra := InsertPositions(ra, true, u.perpPositions, markets.perps,
                          ids + Touched(1, u.spotPositions, markets.spots), target);
    assert ids + Touched(1, u.spotPositions, markets.spots) + Touched(2, u.perpPositions, markets.perps)
        == ids + UserIds(u, markets);
  }

  lemma FirstTwo(perp: MarketInfo)
    ensures Collected(Insert(Insert([], Perp(perp.pubkey, true)), Oracle(perp.oracle)), MarketIds(2, perp), perp.pubkey)
  {
  }

  /** The perp markets the instruction concerns: the target and those of open positions. */
  ghost predicate PerpInUse(m: MarketInfo, liquidator: User, liquidatee: User, marketIndex: U16, markets: Markets) {
    exists k :: k in markets.perps && markets.perps[k] == m &&
      (k == marketIndex || OpenIn(liquidator.perpPositions, k) || OpenIn(liquidatee.perpPositions, k))
  }

  /** The spot markets it concerns: the quote market, which has index 0, and those of open positions. */
  ghost predicate SpotInUse(m: MarketInfo, liquidator: User, liquidatee: User, markets: Markets) {
    exists k :: k in markets.spots && markets.spots[k] == m &&
      (k == 0 || OpenIn(liquidator.spotPositions, k) || OpenIn(liquidatee.spotPositions, k))
  }

  predicate OpenIn(ps: seq<Position>, k: U16) { exists p :: p in ps && !p.available && p.marketIndex == k }

  lemma TouchedKeys(kind: nat, ps: seq<Position>, ms: map<U16, MarketInfo>, id: Id)
    requires Cached(ps, ms)
    ensures id in Touched(kind, ps, ms) <==> exists k :: k in ms && OpenIn(ps, k) && id in MarketIds(kind, ms[k])
  {
    TouchedExact(kind, ps, ms, id);
    if p :| p in ps && !p.available && id in MarketIds(kind, ms[p.marketIndex]) {
      assert OpenIn(ps, p.marketIndex);
    }
    if k :| k in ms && OpenIn(ps, k) && id in MarketIds(kind, ms[k]) {
      var p :| p in ps && !p.available && p.marketIndex == k;
    }
  }

  /** Kind by kind, the accounts are those of the markets in use and their oracles. */
  lemma InstructionIdsExact(liquidator: User, liquidatee: User, marketIndex: U16, markets: Markets, id: Id)
    requires UserCached(liquidator, markets) && UserCached(liquidatee, markets)
    requires marketIndex in markets.perps && 0 in markets.spots && id.0 <= 2
    ensures id in InstructionIds(liquidator, liquidatee, marketIndex, markets) <==>
      match id.0
      case 2 => exists m :: PerpInUse(m, liquidator, liquidatee, marketIndex, markets) && m.pubkey == id.1
      case 1 => exists m :: SpotInUse(m, liquidator, liquidatee, markets) && m.pubkey == id.1
      case _ =>
        || (exists m :: PerpInUse(m, liquidator, liquidatee, marketIndex, markets) && m.oracle == id.1)
        || (exists m :: SpotInUse(m, liquidator, liquidatee, markets) && m.oracle == id.1)
  {
    IdInUse(liquidator, liquidatee, marketIndex, markets, id);
    forall m: MarketInfo
      ensures id in MarketIds(2, m) <==> (id.0 == 2 && m.pubkey == id.1) || (id.0 == 0 && m.oracle == id.1)
      ensures id in MarketIds(1, m) <==> (id.0 == 1 && m.pubkey == id.1) || (id.0 == 0 && m.oracle == id.1)
    {
      assert id == (id.0, id.1);
    }
  }

  lemma IdInUse(liquidator: User, liquidatee: User, marketIndex: U16, markets: Markets, id: Id)
    requires UserCached(liquidator, markets) && UserCached(liquidatee, markets)
    requires marketIndex in markets.perps && 0 in markets.spots
    ensures id in InstructionIds(liquidator, liquidatee, marketIndex, markets) <==>
      || (exists m :: PerpInUse(m, liquidator, liquidatee, marketIndex, markets) && id in MarketIds(2, m))
      || (exists m :: SpotInUse(m, liquidator, liquidatee, markets) && id in MarketIds(1, m))
  {
    TouchedKeys(2, liquidator.perpPositions, markets.perps, id);
    TouchedKeys(2, liquidatee.perpPositions, markets.perps, id);
    TouchedKeys(1, liquidator.spotPositions, markets.spots, id);
    TouchedKeys(1, liquidatee.spotPositions, markets.spots, id);
    assert PerpInUse(markets.perps[marketIndex], liquidator, liquidatee, marketIndex, markets);
    assert SpotInUse(markets.spots[0], liquidator, liquidatee, markets);
    forall k | k in markets.perps && (OpenIn(liquidator.perpPositions, k) || OpenIn(liquidatee.perpPositions, k))
      ensures PerpInUse(markets.perps[k], liquidator, liquidatee, marketIndex, markets)
    {
    }
    forall k | k in markets.spots && (OpenIn(liquidator.spotPositions, k) || OpenIn(liquidatee.spotPositions, k))
      ensures SpotInUse(markets.spots[k], liquidator, liquidatee, markets)
    {
    }
  }

  // ---------------------------------------------------------------- instruction

  function IntoMeta(a: RemainingAccount): AccountMeta { AccountMeta(a.pubkey, false, IsWritable(a)) }

  datatype Arguments = Arguments(marketIndex: U16, maxBase: U64, limitPrice: Option<U64>)

  const DISCRIMINATOR: Bytes := [75, 35, 119, 247, 191, 18, 139, 2]

  function EncodeArguments(x: Arguments): Bytes {
    DISCRIMINATOR + ToLE(x.marketIndex, 2) + ToLE(x.maxBase, 8)
    + (match x.limitPrice case None => [0] case Some(price) => [1] + ToLE(price, 8))
  }

  /** Borsh decoding of the argument bytes. */
  function DecodeArguments(b: Bytes): Option<Arguments> {
    if |b| == 19 && b[..8] == DISCRIMINATOR && b[18] == 0 then
      Pow256Bounds(b);
      Some(Arguments(FromLE(b[8..10]), FromLE(b[10..18]), None))
    else if |b| == 27 && b[..8] == DISCRIMINATOR && b[18] == 1 then
      Pow256Bounds(b);
      Some(Arguments(FromLE(b[8..10]), FromLE(b[10..18]), Some(FromLE(b[19..27]))))
    else None
  }

  lemma Pow256Bounds(b: Bytes)
    requires |b| >= 19
    ensures FromLE(b[8..10]) < 0x1_0000 && FromLE(b[10..18]) < 0x1_0000_0000_0000_0000
    ensures |b| == 27 ==> FromLE(b[19..27]) < 0x1_0000_0000_0000_0000
  {
    Pow256Values();
    FromLEBound(b[8..10]);
    FromLEBound(b[10..18]);
    if |b| == 27 {
      FromLEBound(b[19..27]);
    }
  }

  lemma ArgumentsRoundTrip(x: Arguments)
    ensures DecodeArguments(EncodeArguments(x)) == Some(x)
  {
    var b := EncodeArguments(x);
    Pow256Values();
    DecodeEncode(x.marketIndex, 2);
    DecodeEncode(x.maxBase, 8);
    assert b[..8] == DISCRIMINATOR;
    assert b[8..10] == ToLE(x.marketIndex, 2);
    assert b[10..18] == ToLE(x.maxBase, 8);
    if x.limitPrice.Some? {
      DecodeEncode(x.limitPrice.value, 8);
      assert b[19..27] == ToLE(x.limitPrice.value, 8);
    }
  }

  /** The fixed accounts, in the order the program demands. */
  datatype BaseAccounts = BaseAccounts(
    state: Pubkey, authority: Pubkey, liquidatorUser: Pubkey, liquidatorStats: Pubkey,
    liquidateeUser: Pubkey, liquidateeStats: Pubkey)

  function BaseMetas(b: BaseAccounts): seq<AccountMeta> {
    [AccountMeta(b.state, false, false), AccountMeta(b.authority, true, false),
     AccountMeta(b.liquidatorUser, false, true), AccountMeta(b.liquidatorStats, false, true),
     AccountMeta(b.liquidateeUser, false, true), AccountMeta(b.liquidateeStats, false, true)]
  }

  function RemainingMetas(ra: seq<RemainingAccount>): (r: seq<AccountMeta>)
    ensures |r| == |ra| && forall i :: 0 <= i < |ra| ==> r[i] == IntoMeta(ra[i])
  {
    seq(|ra|, i requires 0 <= i < |ra| => IntoMeta(ra[i]))
  }

  /** Nothing signs, and exactly one entry, the target's, is writable. */
  ghost predicate WritesOnly(metas: seq<AccountMeta>, target: Pubkey) {
    && (forall k :: 0 <= k < |metas| ==> !metas[k].isSigner)
    && (forall k :: 0 <= k < |metas| && metas[k].isWritable ==> metas[k].pubkey == target)
    && (exists k :: 0 <= k < |metas| && metas[k].isWritable)
    && (forall j, k :: 0 <= j < k < |metas| ==> !(metas[j].isWritable && metas[k].isWritable))
  }

  lemma CollectedWritesOnly(ra: seq<RemainingAccount>, ids: set<Id>, target: Pubkey)
    requires Collected(ra, ids, target)
    ensures WritesOnly(RemainingMetas(ra), target)
  {
    var metas := RemainingMetas(ra);
    var t :| 0 <= t < |ra| && ra[t] == Perp(target, true);
    assert metas[t].isWritable;
    forall k | 0 <= k < |ra| && IsWritable(ra[k])
      ensures ra[k] == Perp(target, true)
    {
      assert ra[k] in ra;
    }
    forall j, k | 0 <= j < k < |ra|
      ensures !(IsWritable(ra[j]) && IsWritable(ra[k]))
    {
      assert Less(IdOf(ra[j]), IdOf(ra[k]));
      LessIsOrder(IdOf(ra[j]), IdOf(ra[j]), IdOf(ra[j]));
    }
  }

  /** Who is where, who signs and what may be written. */
  lemma MetasInOrder(base: BaseAccounts, ra: seq<RemainingAccount>)
    ensures var accounts := BaseMetas(base) + RemainingMetas(ra);
      && accounts[0].pubkey == base.state && accounts[1].pubkey == base.authority
      && accounts[2].pubkey == base.liquidatorUser && accounts[3].pubkey == base.liquidatorStats
      && accounts[4].pubkey == base.liquidateeUser && accounts[5].pubkey == base.liquidateeStats
      && (forall k :: 0 <= k < |accounts| ==> (accounts[k].isSigner <==> k == 1))
      && (forall k :: 0 <= k < 6 ==> (accounts[k].isWritable <==> k >= 2))
      && accounts[6..] == RemainingMetas(ra)
      && (forall k :: 6 <= k < |accounts| ==> accounts[k].pubkey == ra[k - 6].pubkey)
  {
  }

  lemma ArgumentBytes(x: Arguments)
    ensures var data := EncodeArguments(x);
      && data[..8] == [75, 35, 119, 247, 191, 18, 139, 2]
      && data[8..10] == ToLE(x.marketIndex, 2) && data[10..18] == ToLE(x.maxBase, 8)
      && data[18..] == match x.limitPrice case None => [0] case Some(price) => [1] + ToLE(price, 8)
  {
  }

  /** `build_liquidate_perp_ix`. Past the fixed accounts nothing signs, and the target perp market is the
      only key that can be written, once. */
  method BuildLiquidatePerp(base: BaseAccounts, liquidator: User, liquidatee: User, x: Arguments, markets: Markets)
    returns (accounts: seq<AccountMeta>, data: Bytes)
    requires UserCached(liquidator, markets) && UserCached(liquidatee, markets)
    requires x.marketIndex in markets.perps && 0 in markets.spots
    ensures |accounts| >= 6
    ensures accounts[0].pubkey == base.state && accounts[1].pubkey == base.authority
    ensures accounts[2].pubkey == base.liquidatorUser && accounts[3].pubkey == base.liquidatorStats
    ensures accounts[4].pubkey == base.liquidateeUser && accounts[5].pubkey == base.liquidateeStats
    ensures forall k :: 0 <= k < |accounts| ==> (accounts[k].isSigner <==> k == 1)
    ensures forall k :: 0 <= k < 6 ==> (accounts[k].isWritable <==> k >= 2)
    ensures exists ra: seq<RemainingAccount> ::
      && accounts[6..] == RemainingMetas(ra)
      && (forall k :: 6 <= k < |accounts| ==> accounts[k].pubkey == ra[k - 6].pubkey)
      && Collected(ra, InstructionIds(liquidator, liquidatee, x.marketIndex, markets),
                   markets.perps[x.marketIndex].pubkey)
    ensures WritesOnly(accounts[6..], markets.perps[x.marketIndex].pubkey)
    ensures DecodeArguments(data) == Some(x)
    ensures data[..8] == [75, 35, 119, 247, 191, 18, 139, 2]
    ensures data[8..10] == ToLE(x.marketIndex, 2) && data[10..18] == ToLE(x.maxBase, 8)
    ensures data[18..] == match x.limitPrice case None => [0] case Some(price) => [1] + ToLE(price, 8)
  {
    var ra := RemainingAccounts(liquidator, liquidatee, x.marketIndex, markets);
    CollectedWritesOnly(ra, Ids(ra), markets.perps[x.marketIndex].pubkey);
    accounts := BaseMetas(base) + RemainingMetas(ra);
    MetasInOrder(base, ra);
    data := EncodeArguments(x);
    ArgumentBytes(x);
    ArgumentsRoundTrip(x);
  }
}
