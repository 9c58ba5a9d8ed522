/** The peer book: every known peer id with its address and ban state,
    kept in memory in insertion order. The on-disk mirror is not modelled;
    any valid book may stand for the state `load` produced. */
module PeerBook {
  import opened Base
  import JsMap

  const DEFAULT_MAX_BAN_ATTEMPTS: int := 8
  const DEFAULT_BAN_TTL: nat := 30000

  /** One entry (`PeerStatus`). `banCount == 0 && unbanTime == 0` means the
      peer was never banned or has been unbanned since. */
  datatype PeerStatus = PeerStatus(addr: string, banCount: nat, unbanTime: int)

  /** The `PeerStatus` constructor. */
  function NewStatus(addr: string): (p: PeerStatus)
    ensures p.addr == addr && p.banCount == 0 && p.unbanTime == 0
  {
    PeerStatus(addr, 0, 0)
  }

  /** `PeerStatus.reset`. */
  function Reset(p: PeerStatus): (r: PeerStatus)
    ensures r == NewStatus(p.addr)
  {
    p.(banCount := 0, unbanTime := 0)
  }

  datatype Config = Config(maxBanAttempts: int, banTTL: int)

  /** The constructor's option handling `opts.x || default`: a missing or
      zero option takes the default. */
  function MakeConfig(maxBanAttempts: int, banTTL: int): (c: Config)
    ensures maxBanAttempts != 0 ==> c.maxBanAttempts == maxBanAttempts
    ensures maxBanAttempts == 0 ==> c.maxBanAttempts == DEFAULT_MAX_BAN_ATTEMPTS
    ensures banTTL != 0 ==> c.banTTL == banTTL
    ensures banTTL == 0 ==> c.banTTL == DEFAULT_BAN_TTL
    ensures banTTL >= 0 ==> c.banTTL >= 1
  {
    Config(
      if maxBanAttempts == 0 then DEFAULT_MAX_BAN_ATTEMPTS else maxBanAttempts,
      if banTTL == 0 then DEFAULT_BAN_TTL else banTTL)
  }

  type Book<K> = JsMap.JsMap<K, PeerStatus>

  function Pow2(n: nat): (r: nat)
    ensures r >= 1
  {
    if n == 0 then 1 else 2 * Pow2(n - 1)
  }

  /** The un-jittered ban duration for the `banCount`-th consecutive ban. */
  function BaseTtl(cfg: Config, banCount: nat): int
    requires banCount >= 1
  {
    cfg.banTTL * Pow2(banCount - 1)
  }

  /** A duration `d` within the jitter of `ttl`: `0.9·ttl − 1 < d < 1.1·ttl`. */
  predicate WithinJitter(ttl: int, d: int)
  {
    9 * ttl - 10 < 10 * d && 10 * d < 11 * ttl
  }

  /** `Math.floor(random * (maxTTL - minTTL) + minTTL)` with
      `minTTL = 0.9·ttl`, `maxTTL = 1.1·ttl` and `random` in `[0, 1)`. */
  function Jittered(ttl: int, random: real): (d: int)
    requires 0.0 <= random < 1.0
    ensures ttl >= 1 ==> WithinJitter(ttl, d)
    ensures ttl >= 0 ==> d >= 0
  {
    var minTtl := ttl as real * 0.9;
    var maxTtl := ttl as real * 1.1;
    var x := random * (maxTtl - minTtl) + minTtl;
    JitterRange(ttl, random, x);
    var d := x.Floor;
    assert d as real <= x < d as real + 1.0;
    assert ttl >= 1 ==> (10 * d) as real < (11 * ttl) as real;
    d
  }

  /** The jittered value before rounding lies in `[0.9·ttl, 1.1·ttl)`. */
  lemma JitterRange(ttl: int, random: real, x: real)
    requires 0.0 <= random < 1.0
    requires x == random * (ttl as real * 1.1 - ttl as real * 0.9) + ttl as real * 0.9
    ensures ttl >= 0 ==> ttl as real * 0.9 <= x
    ensures ttl >= 1 ==> x < ttl as real * 1.1
  {
    var t := ttl as real;
    assert x == random * (t * 0.2) + t * 0.9;
    if ttl >= 0 {
      ScaledFraction(random, t * 0.2);
    }
  }

  /** A fraction in `[0, 1)` of a non-negative amount stays below it. */
  lemma ScaledFraction(f: real, a: real)
    requires 0.0 <= f < 1.0 && a >= 0.0
    ensures 0.0 <= f * a <= a
    ensures a > 0.0 ==> f * a < a
  {

  }

  /** `PeerBook.add`: a new id gets a fresh entry at the end of the
      iteration order; a known id keeps its entry, address included. */
  function Add<K>(book: Book<K>, id: K, addr: string): (r: Book<K>)
    requires JsMap.Valid(book)
    ensures JsMap.Valid(r)
    ensures id in book.vals ==> r == book
    ensures id !in book.vals ==> r.vals == book.vals[id := NewStatus(addr)]
    ensures id !in book.vals ==> r.keys == book.keys + [id]
  {
    if id in book.vals then book else JsMap.Set(book, id, NewStatus(addr))
  }

  /** `PeerBook.get`. */
  function Get<K>(book: Book<K>, id: K): (r: Option<PeerStatus>)
    ensures r.Some? <==> id in book.vals
    ensures r.Some? ==> r.value == book.vals[id]
  {
    JsMap.Get(book, id)
  }

  /** `PeerBook.remove`: only `id` goes, every other entry stays as it was. */
  function Remove<K>(book: Book<K>, id: K): (r: Book<K>)
    requires JsMap.Valid(book)
    ensures JsMap.Valid(r)
    ensures id !in r.vals
    ensures forall k | k in book.vals && k != id :: k in r.vals && r.vals[k] == book.vals[k]
    ensures forall k | k in r.vals :: k in book.vals
  {
    JsMap.Delete(book, id)
  }

  /** `PeerBook.ban` at time `now`, with `random` standing for `Math.random()`. */
  function Ban<K>(cfg: Config, book: Book<K>, id: K, now: int, random: real): (r: Book<K>)
    requires JsMap.Valid(book)
    requires 0.0 <= random < 1.0
    ensures JsMap.Valid(r)
    ensures id !in book.vals ==> r == book
    ensures id in book.vals && book.vals[id].banCount + 1 > cfg.maxBanAttempts ==>
      id !in r.vals
    ensures id in book.vals && book.vals[id].banCount + 1 <= cfg.maxBanAttempts ==>
      && id in r.vals
      && r.keys == book.keys
      && r.vals[id].addr == book.vals[id].addr
      && r.vals[id].banCount == book.vals[id].banCount + 1
      && r.vals[id].unbanTime == now + Jittered(BaseTtl(cfg, r.vals[id].banCount), random)
    ensures forall k | k in r.vals :: k in book.vals
    ensures forall k | k in book.vals && k != id :: k in r.vals && r.vals[k] == book.vals[k]
  {
    if id !in book.vals then book
    else
      var p := book.vals[id];
      var count := p.banCount + 1;
      if count > cfg.maxBanAttempts then Remove(book, id)
      else
        var ttl := Jittered(BaseTtl(cfg, count), random);
        JsMap.Set(book, id, PeerStatus(p.addr, count, now + ttl))
  }

  /** A ban that keeps the peer puts its unban time within the jitter
      of `banTTL · 2^(banCount − 1)` from now. */
  lemma BanDuration<K>(cfg: Config, book: Book<K>, id: K, now: int, random: real)
    requires JsMap.Valid(book)
    requires 0.0 <= random < 1.0
    requires cfg.banTTL >= 1
    requires id in book.vals && book.vals[id].banCount + 1 <= cfg.maxBanAttempts
    ensures
      var r := Ban(cfg, book, id, now, random);
      && id in r.vals
      && WithinJitter(cfg.banTTL * Pow2(book.vals[id].banCount), r.vals[id].unbanTime - now)
  {

  }

  /** `PeerBook.unban`: a full reset of the ban state of a known id. */
  function Unban<K>(book: Book<K>, id: K): (r: Book<K>)
    requires JsMap.Valid(book)
    ensures JsMap.Valid(r)
    ensures id !in book.vals ==> r == book
    ensures id in book.vals ==> r.vals == book.vals[id := NewStatus(book.vals[id].addr)]
    ensures r.keys == book.keys
  {
    if id !in book.vals then book else JsMap.Set(book, id, Reset(book.vals[id]))
  }

  /** Currently unbanned: the unban time lies strictly in the past. */
  predicate IsUnbanned(p: PeerStatus, now: int)
  {
    now > p.unbanTime
  }

  /** The entries visited by `forEach`, keeping the unbanned ones. */
  function UnbannedFrom<K>(keys: seq<K>, vals: map<K, PeerStatus>, now: int): (r: seq<(K, PeerStatus)>)
    requires forall k | k in keys :: k in vals
    ensures forall e | e in r :: e.0 in keys && e.1 == vals[e.0] && IsUnbanned(e.1, now)
    ensures forall k | k in keys && IsUnbanned(vals[k], now) :: (k, vals[k]) in r
    ensures NoDup(keys) ==> forall i, j :: 0 <= i < j < |r| ==> r[i].0 != r[j].0
  {
    if |keys| == 0 then []
    else
      var rest := UnbannedFrom(keys[1..], vals, now);
      assert NoDup(keys) ==> keys[0] !in keys[1..];
      if IsUnbanned(vals[keys[0]], now) then [(keys[0], vals[keys[0]])] + rest else rest
  }

  /** The calls `forEachUnbanned` makes: `callback(peer, id)` for exactly
      the unbanned entries, in insertion order, each id once. */
  function ForEachUnbanned<K>(book: Book<K>, now: int): (calls: seq<(PeerStatus, K)>)
    requires JsMap.Valid(book)
    ensures forall c | c in calls :: c.1 in book.vals && c.0 == book.vals[c.1] && IsUnbanned(c.0, now)
    ensures forall k | k in book.vals && IsUnbanned(book.vals[k], now) :: (book.vals[k], k) in calls
    ensures forall i, j :: 0 <= i < j < |calls| ==> calls[i].1 != calls[j].1
  {
    var entries := UnbannedFrom(book.keys, book.vals, now);
    var calls := seq(|entries|, i requires 0 <= i < |entries| => (entries[i].1, entries[i].0));
    assert forall k | k in book.vals && IsUnbanned(book.vals[k], now) :: (book.vals[k], k) in calls by {
      forall k | k in book.vals && IsUnbanned(book.vals[k], now)
        ensures (book.vals[k], k) in calls
      {
        var i :| 0 <= i < |entries| && entries[i] == (k, book.vals[k]);
        assert calls[i] == (book.vals[k], k);
      }
    }
    calls
  }

  /** The statuses of a list of `(status, id)` calls, in order. */
  function Statuses<K>(calls: seq<(PeerStatus, K)>): (r: seq<PeerStatus>)
    ensures |r| == |calls|
    ensures forall i :: 0 <= i < |r| ==> r[i] == calls[i].0
    ensures forall c | c in calls :: c.0 in r
  {
    if |calls| == 0 then []
    else [calls[0].0] + Statuses(calls[1..])
  }

  /** `getUnbannedPeers`: the statuses `forEachUnbanned` would visit, in
      the same order. */
  function GetUnbannedPeers<K>(book: Book<K>, now: int): (r: seq<PeerStatus>)
    requires JsMap.Valid(book)
    ensures |r| == |ForEachUnbanned(book, now)|
    ensures forall i :: 0 <= i < |r| ==> r[i] == ForEachUnbanned(book, now)[i].0
    ensures forall p | p in r :: IsUnbanned(p, now)
    ensures forall k | k in book.vals && IsUnbanned(book.vals[k], now) :: book.vals[k] in r
  {
    Statuses(ForEachUnbanned(book, now))
  }

  /** `getAllPeers`: every status, in insertion order. */
  function GetAllPeers<K>(book: Book<K>): (r: seq<PeerStatus>)
    requires JsMap.Valid(book)
    ensures |r| == |book.keys|
    ensures forall i :: 0 <= i < |r| ==> r[i] == book.vals[book.keys[i]]
    ensures forall k | k in book.vals :: book.vals[k] in r
    ensures forall p | p in r :: exists k | k in book.vals :: book.vals[k] == p
  {
    var r := JsMap.Values(book);
    assert forall k | k in book.vals :: book.vals[k] in r by {
      forall k | k in book.vals ensures book.vals[k] in r {
        var i :| 0 <= i < |book.keys| && book.keys[i] == k;
        assert r[i] == book.vals[k];
      }
    }
    r
  }

  /** Bans applied one after another, each at its own time and with its
      own random draw. */
  function BanAll<K>(cfg: Config, book: Book<K>, id: K, bans: seq<(int, real)>): (r: Book<K>)
    requires JsMap.Valid(book)
    requires forall i :: 0 <= i < |bans| ==> 0.0 <= bans[i].1 < 1.0
    ensures JsMap.Valid(r)
    decreases |bans|
  {
    if |bans| == 0 then book
    else BanAll(cfg, Ban(cfg, book, id, bans[0].0, bans[0].1), id, bans[1..])
  }

  /** Consecutive bans without an unban in between: each raises the count
      by one and doubles the base duration, until the count passes
      `maxBanAttempts`, when the peer leaves the book for good. */
  lemma {:induction false} RepeatedBans<K>(cfg: Config, book: Book<K>, id: K, bans: seq<(int, real)>)
    requires JsMap.Valid(book)
    requires forall i :: 0 <= i < |bans| ==> 0.0 <= bans[i].1 < 1.0
    requires |bans| >= 1
    requires id in book.vals
    decreases |bans|
    ensures
      var r := BanAll(cfg, book, id, bans);
      var count := book.vals[id].banCount + |bans|;
      && (count > cfg.maxBanAttempts ==> id !in r.vals)
      && (count <= cfg.maxBanAttempts ==>
            && id in r.vals
            && r.vals[id].addr == book.vals[id].addr
            && r.vals[id].banCount == count
            && r.vals[id].unbanTime
               == bans[|bans| - 1].0 + Jittered(BaseTtl(cfg, count), bans[|bans| - 1].1))
  {
    var next := Ban(cfg, book, id, bans[0].0, bans[0].1);
    var count := book.vals[id].banCount + |bans|;
    if |bans| == 1 {
    } else if id !in next.vals {
      BanAbsent(cfg, next, id, bans[1..]);
    } else {
      RepeatedBans(cfg, next, id, bans[1..]);
    }
  }

  /** Banning an id that is not in the book changes nothing, however often. */
  lemma {:induction false} BanAbsent<K>(cfg: Config, book: Book<K>, id: K, bans: seq<(int, real)>)
    requires JsMap.Valid(book)
    requires forall i :: 0 <= i < |bans| ==> 0.0 <= bans[i].1 < 1.0
    requires id !in book.vals
    ensures BanAll(cfg, book, id, bans) == book
  {
    if |bans| > 0 {
      BanAbsent(cfg, book, id, bans[1..]);
    }
  }

  /** The base duration doubles from one consecutive ban to the next. */
  lemma BaseTtlDoubles(cfg: Config, banCount: nat)
    requires banCount >= 1
    ensures BaseTtl(cfg, banCount + 1) == 2 * BaseTtl(cfg, banCount)
  {

  }

  /** After an unban the next ban starts the backoff over at `banTTL`. */
  lemma UnbanRestartsBackoff<K>(cfg: Config, book: Book<K>, id: K, now: int, random: real)
    requires JsMap.Valid(book)
    requires 0.0 <= random < 1.0
    requires id in book.vals
    requires cfg.maxBanAttempts >= 1
    ensures
      var r := Ban(cfg, Unban(book, id), id, now, random);
      && id in r.vals
      && r.vals[id].banCount == 1
      && r.vals[id].unbanTime == now + Jittered(cfg.banTTL, random)
  {

  }
}
