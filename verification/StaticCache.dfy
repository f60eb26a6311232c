/**
 The cache of encoded static files (openFile and isOk of static_file.go, the encoder names of
 context/accept_encoder.go), for any number of requests that interleave between the two looks
 each of them takes at the cache.
 */
module StaticCache {
  import opened Wrappers
  import opened Text

  /** What is known of a file before it is opened. */
  datatype Info = Info(modTime: int, size: nat)

  /** Settings, the content of each file by path, time and size, and the two compressors. */
  datatype Config = Config(
    maxSize: int, fileNum: int, content: (string, Info) -> Bytes, compress: (string, Bytes) -> Bytes)

  datatype Holder = Holder(data: Bytes, modTime: int, size: nat, originSize: nat, encoding: string)

  type Cache = map<string, Holder>

  datatype Request = Request(path: string, accept: string, info: Info)

  datatype Answer = Failed | Served(compressed: bool, encoding: string, holder: Holder)

  /** The name under which encoderMap knows an accepted encoding. */
  function EncoderName(accept: string): (name: string)
    ensures ':' !in name
  {
    if accept == "gzip" || accept == "*" then "gzip" else if accept == "deflate" then "deflate" else ""
  }

  function Encode(cfg: Config, accept: string, content: Bytes): Bytes
  {
    var name := EncoderName(accept);
    if name == "" then content else cfg.compress(name, content)
  }

  function Key(accept: string, path: string): string
  {
    accept + ":" + path
  }

  /** How a file with this information is served when it is encoded afresh. */
  function Fresh(cfg: Config, r: Request): Holder
  {
    var data := Encode(cfg, r.accept, cfg.content(r.path, r.info));
    Holder(data, r.info.modTime, |data|, r.info.size, EncoderName(r.accept))
  }

  predicate IsOk(cfg: Config, h: Option<Holder>, info: Info)
  {
    h.Some? && h.value.size <= cfg.maxSize && h.value.modTime == info.modTime && h.value.originSize == info.size
  }

  function Serve(h: Holder): Answer
  {
    Served(h.encoding != "", h.encoding, h)
  }

  /** What a request is answered with: the file itself, or compressed and labelled as gzip or deflate. */
  lemma ServedAs(cfg: Config, r: Request)
    ensures var h, text := Fresh(cfg, r), cfg.content(r.path, r.info);
            && (r.accept == "gzip" || r.accept == "*" ==>
                  Serve(h) == Served(true, "gzip", h) && h.data == cfg.compress("gzip", text))
            && (r.accept == "deflate" ==>
                  Serve(h) == Served(true, "deflate", h) && h.data == cfg.compress("deflate", text))
            && (r.accept != "gzip" && r.accept != "*" && r.accept != "deflate" ==>
                  Serve(h) == Served(false, "", h) && h.data == text)
            && h.size == |h.data| && h.originSize == r.info.size && h.modTime == r.info.modTime
  {
  }

  function Capacity(cfg: Config): nat
  {
    if cfg.fileNum >= 1 then cfg.fileNum else 1
  }

  function Get(cache: Cache, key: string): Option<Holder>
  {
    if key in cache then Some(cache[key]) else None
  }

  /** Adding to a full cache drops some other entry. */
  ghost predicate Added(cfg: Config, cache: Cache, cache': Cache, key: string, h: Holder)
  {
    if key in cache || |cache| < Capacity(cfg) then cache' == cache[key := h]
    else exists victim :: victim in cache && cache' == (cache - {victim})[key := h]
  }

  // ---------------------------------------------------------------- coherence

  /** Keys tell accepted encodings and paths apart, as long as no encoding holds a colon. */
  lemma KeyInjective(a1: string, p1: string, a2: string, p2: string)
    requires ':' !in a1 && ':' !in a2 && Key(a1, p1) == Key(a2, p2)
    ensures a1 == a2 && p1 == p2
  {
    var k := Key(a1, p1);
    assert k[..|a1|] == a1 && k[..|a2|] == a2;
    assert ":"[0] == ':';
    IndexAnyUnique(k, ":", |a1|);
    IndexAnyUnique(k, ":", |a2|);
    assert p1 == k[|a1| + 1..];
  }

  /** In general two encodings share a key if and only if one, with its colon, begins the other. */
  lemma KeysCollideIff(a1: string, a2: string)
    requires a1 != a2
    ensures (exists p1, p2 :: Key(a1, p1) == Key(a2, p2)) <==> a1 + ":" <= a2 + ":" || a2 + ":" <= a1 + ":"
  {
    if p1, p2 :| Key(a1, p1) == Key(a2, p2) {
      var k := Key(a1, p1);
      assert k[..|a1| + 1] == a1 + ":" && k[..|a2| + 1] == a2 + ":";
      assert |a1| <= |a2| ==> (a2 + ":")[..|a1| + 1] == a1 + ":";
      assert |a2| <= |a1| ==> (a1 + ":")[..|a2| + 1] == a2 + ":";
    }
    if a1 + ":" <= a2 + ":" {
      assert Key(a1, (a2 + ":")[|a1| + 1..]) == Key(a2, "");
    } else if a2 + ":" <= a1 + ":" {
      assert Key(a1, "") == Key(a2, (a1 + ":")[|a2| + 1..]);
    }
  }

  /** Each entry is what encoding some version of its file afresh gives, and fits the size limit. */
  ghost predicate Coherent(cfg: Config, cache: Cache)
  {
    |cache| <= Capacity(cfg) && forall k :: k in cache ==> EntryCoherent(cfg, k, cache[k])
  }

  ghost predicate EntryCoherent(cfg: Config, k: string, h: Holder)
  {
    h.size <= cfg.maxSize &&
    exists r: Request :: ':' !in r.accept && k == Key(r.accept, r.path) && h == Fresh(cfg, r)
  }

  /** An entry found under a request's key with its time and size is the fresh encoding. */
  lemma HitIsFresh(cfg: Config, cache: Cache, r: Request)
    requires Coherent(cfg, cache) && ':' !in r.accept
    requires IsOk(cfg, Get(cache, Key(r.accept, r.path)), r.info)
    ensures cache[Key(r.accept, r.path)] == Fresh(cfg, r)
  {
    var k := Key(r.accept, r.path);
    assert EntryCoherent(cfg, k, cache[k]);
    var r0: Request :| ':' !in r0.accept && k == Key(r0.accept, r0.path) && cache[k] == Fresh(cfg, r0);
    KeyInjective(r0.accept, r0.path, r.accept, r.path);
  }

  lemma PutCount(cache: Cache, k: string, h: Holder)
    ensures |cache[k := h]| == if k in cache then |cache| else |cache| + 1
  {
    assert cache[k := h].Keys == cache.Keys + {k};
  }

  lemma DropCount(cache: Cache, victim: string)
    requires victim in cache
    ensures |cache - {victim}| == |cache| - 1
  {
    assert (cache - {victim}).Keys == cache.Keys - {victim};
  }

  /** Adding keeps the bound, stores the entry and changes no other. */
  lemma AddedMeaning(cfg: Config, cache: Cache, cache': Cache, k: string, h: Holder)
    requires |cache| <= Capacity(cfg) && Added(cfg, cache, cache', k, h)
    ensures |cache'| <= Capacity(cfg) && Get(cache', k) == Some(h)
    ensures forall x :: x in cache' && x != k ==> x in cache && cache'[x] == cache[x]
  {
    if k in cache || |cache| < Capacity(cfg) {
      PutCount(cache, k, h);
    } else {
      var victim :| victim in cache && cache' == (cache - {victim})[k := h];
      DropCount(cache, victim);
      PutCount(cache - {victim}, k, h);
    }
  }

  lemma AddedIsCoherent(cfg: Config, cache: Cache, cache': Cache, r: Request)
    requires Coherent(cfg, cache) && ':' !in r.accept && Fresh(cfg, r).size <= cfg.maxSize
    requires Added(cfg, cache, cache', Key(r.accept, r.path), Fresh(cfg, r))
    ensures Coherent(cfg, cache') && Get(cache', Key(r.accept, r.path)) == Some(Fresh(cfg, r))
  {
    var k := Key(r.accept, r.path);
    AddedMeaning(cfg, cache, cache', k, Fresh(cfg, r));
    assert EntryCoherent(cfg, k, Fresh(cfg, r));
  }

  // ---------------------------------------------------------------- interleaved requests

  /** A request between its two looks, with what the first one found. */
  datatype Waiting = Waiting(request: Request, seen: Option<Holder>)

  datatype Given = Given(request: Request, answer: Answer)

  datatype State = State(cache: Cache, waiting: map<nat, Waiting>, given: seq<Given>)

  /** The look under the read lock. */
  ghost predicate Begin(cfg: Config, s: State, s': State, id: nat, r: Request)
  {
    var found := Get(s.cache, Key(r.accept, r.path));
    id !in s.waiting && ':' !in r.accept &&
    s' == if IsOk(cfg, found, r.info) then s.(given := s.given + [Given(r, Serve(found.value))])
          else s.(waiting := s.waiting[id := Waiting(r, found)])
  }

  /** The look under the write lock, with reading the file unless another request already did. */
  ghost predicate Finish(cfg: Config, s: State, s': State, id: nat, readable: bool)
  {
    id in s.waiting &&
    var r := s.waiting[id].request;
    var found := Get(s.cache, Key(r.accept, r.path));
    var mapFile := if found.Some? then found else s.waiting[id].seen;
    Finished(cfg, s.cache, s'.cache, r, mapFile, readable) && s'.waiting == s.waiting - {id} &&
    s'.given == s.given + [Given(r, Outcome(cfg, r, mapFile, readable))]
  }

  function Outcome(cfg: Config, r: Request, mapFile: Option<Holder>, readable: bool): Answer
  {
    if IsOk(cfg, mapFile, r.info) then Serve(mapFile.value) else if readable then Serve(Fresh(cfg, r)) else Failed
  }

  ghost predicate Finished(cfg: Config, cache: Cache, cache': Cache, r: Request, mapFile: Option<Holder>,
      readable: bool)
  {
    if !IsOk(cfg, mapFile, r.info) && readable && IsOk(cfg, Some(Fresh(cfg, r)), r.info)
    then Added(cfg, cache, cache', Key(r.accept, r.path), Fresh(cfg, r))
    else cache' == cache
  }

  ghost predicate Step(cfg: Config, s: State, s': State)
  {
    (exists id: nat, r: Request :: Begin(cfg, s, s', id, r)) ||
    (exists id: nat, readable: bool :: Finish(cfg, s, s', id, readable))
  }

  ghost predicate AnsweredFresh(cfg: Config, g: Given)
  {
    g.answer == Failed || g.answer == Serve(Fresh(cfg, g.request))
  }

  ghost predicate Inv(cfg: Config, s: State)
  {
    Coherent(cfg, s.cache) && (forall g :: g in s.given ==> AnsweredFresh(cfg, g)) &&
    forall id :: id in s.waiting ==>
                   ':' !in s.waiting[id].request.accept && !IsOk(cfg, s.waiting[id].seen, s.waiting[id].request.info)
  }

  lemma BeginKeeps(cfg: Config, s: State, s': State, id: nat, r: Request)
    requires Inv(cfg, s) && Begin(cfg, s, s', id, r)
    ensures Inv(cfg, s')
  {
    if IsOk(cfg, Get(s.cache, Key(r.accept, r.path)), r.info) {
      HitIsFresh(cfg, s.cache, r);
    }
  }

  lemma FinishKeeps(cfg: Config, s: State, s': State, id: nat, readable: bool)
    requires Inv(cfg, s) && Finish(cfg, s, s', id, readable)
    ensures Inv(cfg, s')
  {
    var r := s.waiting[id].request;
    var found := Get(s.cache, Key(r.accept, r.path));
    if IsOk(cfg, found, r.info) {
      HitIsFresh(cfg, s.cache, r);
    } else if readable && IsOk(cfg, Some(Fresh(cfg, r)), r.info) {
      AddedIsCoherent(cfg, s.cache, s'.cache, r);
    }
  }

  /** An entry serves exactly the requests for the version it was made of, and none if it is over the limit. */
  lemma EntryServesIff(cfg: Config, r: Request, info: Info)
    ensures IsOk(cfg, Some(Fresh(cfg, r)), info) <==>
            |Fresh(cfg, r).data| <= cfg.maxSize && info.modTime == r.info.modTime && info.size == r.info.size
  {
  }

  /** What one request reads answers the next one for the same version at its first look, unless it is too large. */
  lemma RepeatIsServed(cfg: Config, s: State, s1: State, s2: State, id: nat, next: nat)
    requires Inv(cfg, s) && Finish(cfg, s, s1, id, true)
    requires Begin(cfg, s1, s2, next, s.waiting[id].request)
    ensures var r := s.waiting[id].request;
            if |Fresh(cfg, r).data| <= cfg.maxSize
            then s2 == s1.(given := s1.given + [Given(r, Serve(Fresh(cfg, r)))])
            else s2 == s1.(waiting := s2.waiting) && next in s2.waiting
  {
    var r := s.waiting[id].request;
    var found := Get(s.cache, Key(r.accept, r.path));
    FinishKeeps(cfg, s, s1, id, true);
    EntryServesIff(cfg, r, r.info);
    if IsOk(cfg, found, r.info) {
      HitIsFresh(cfg, s.cache, r);
    } else if IsOk(cfg, Some(Fresh(cfg, r)), r.info) {
      AddedMeaning(cfg, s.cache, s1.cache, Key(r.accept, r.path), Fresh(cfg, r));
    }
    if IsOk(cfg, Get(s1.cache, Key(r.accept, r.path)), r.info) {
      HitIsFresh(cfg, s1.cache, r);
    }
  }

  /** A run from the empty cache. */
  ghost predicate IsRun(cfg: Config, run: seq<State>)
  {
    |run| > 0 &&
    if |run| == 1 then run[0] == State(map[], map[], [])
    else IsRun(cfg, run[..|run| - 1]) && Step(cfg, run[|run| - 2], run[|run| - 1])
  }

  /**
   However the requests interleave, whatever versions of the files they ask for and whatever
   the cache drops, every answer but a failure to read is the fresh encoding, and the cache
   stays coherent and within its bound.
   */
  lemma {:induction false} AnswersAreFresh(cfg: Config, run: seq<State>)
    requires IsRun(cfg, run)
    ensures Inv(cfg, run[|run| - 1])
  {
    if |run| > 1 {
      var s, s' := run[|run| - 2], run[|run| - 1];
      AnswersAreFresh(cfg, run[..|run| - 1]);
      if id: nat, r: Request :| Begin(cfg, s, s', id, r) {
        BeginKeeps(cfg, s, s', id, r);
      } else {
        var id: nat, readable: bool :| Finish(cfg, s, s', id, readable);
        FinishKeeps(cfg, s, s', id, readable);
      }
    }
  }

  // ---------------------------------------------------------------- the shared cache

  class FileCache {
    const cfg: Config
    var cache: Cache

    constructor (cfg: Config)
      ensures this.cfg == cfg && cache == map[] && Coherent(cfg, cache)
    {
      this.cfg := cfg;
      cache := map[];
    }

    /** `Add` of the cache library. */
    method Add(key: string, h: Holder)
      requires |cache| <= Capacity(cfg)
      modifies this
      ensures Added(cfg, old(cache), cache, key, h)
    {
      if key !in cache && |cache| >= Capacity(cfg) {
        assert cache.Keys != {};
        var victim :| victim in cache.Keys;
        cache := cache - {victim};
      }
      cache := cache[key := h];
    }

    /**
     `between` is what other requests leave in the cache while this one holds neither lock,
     `readable` tells whether the file can be opened and read.
     */
    method OpenFile(r: Request, between: Cache, readable: bool) returns (a: Answer)
      requires Coherent(cfg, cache) && Coherent(cfg, between) && ':' !in r.accept
      modifies this
      ensures Coherent(cfg, cache)
      ensures a == Failed || a == Serve(Fresh(cfg, r))
      ensures readable ==> a != Failed
      ensures a != Failed && Fresh(cfg, r).size <= cfg.maxSize ==>
                Get(cache, Key(r.accept, r.path)) == Some(Fresh(cfg, r))
    {
      var mapKey := r.accept + ":" + r.path;
      var mapFile := Get(cache, mapKey);
      if IsOk(cfg, mapFile, r.info) {
        HitIsFresh(cfg, cache, r);
        return Served(mapFile.value.encoding != "", mapFile.value.encoding, mapFile.value);
      }
      cache := between;
      if mapKey in cache {
        mapFile := Some(cache[mapKey]);
      }
      if IsOk(cfg, mapFile, r.info) {
        HitIsFresh(cfg, cache, r);
      } else {
        if !readable {
          return Failed;
        }
        var data := Encode(cfg, r.accept, cfg.content(r.path, r.info));
        mapFile := Some(Holder(data, r.info.modTime, |data|, r.info.size, EncoderName(r.accept)));
        if IsOk(cfg, mapFile, r.info) {
          ghost var before := cache;
          Add(mapKey, mapFile.value);
          AddedIsCoherent(cfg, before, cache, r);
        }
      }
      return Served(mapFile.value.encoding != "", mapFile.value.encoding, mapFile.value);
    }
  }
}
