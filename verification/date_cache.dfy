/** The per-thread date cache of `DateTimeFormatItem::format`, shared by all date items of a thread. */
module DateCache {
  /** `localtime_r` and then `strftime` into a buffer of 20 characters. A failing `strftime` leaves anything in
    * the buffer.
    */
  datatype Conversion = Converted(text: string) | NoLocalTime | NoFormat(left: string)

  type Clock = (string, int) -> Conversion

  datatype Cache = Cache(lastSecond: int, text: string)

  /** What a new thread starts with. */
  const EMPTY := Cache(0, "")

  datatype Output = Output(text: string, cache: Cache)

  /** One call of `DateTimeFormatItem::format`: what it appends, and the cache afterwards. */
  function Render(clock: Clock, format: string, second: int, cache: Cache): Output {
    if second == cache.lastSecond then Output(cache.text, cache)
    else
      match clock(format, second)
      case Converted(text) => Output(text, Cache(second, text))
      case NoLocalTime => Output("", cache)
      case NoFormat(left) => Output("", cache.(text := left))
  }

  class ThreadCache {
    var lastSecond: int
    var cachedDateTime: string

    ghost function Value(): Cache
      reads this
    {
      Cache(lastSecond, cachedDateTime)
    }

    constructor ()
      ensures Value() == EMPTY
    {
      lastSecond := 0;
      cachedDateTime := "";
    }

    /** `DateTimeFormatItem::format`, returning what it appends. */
    method Format(clock: Clock, format: string, second: int) returns (appended: string)
      modifies this
      ensures Output(appended, Value()) == Render(clock, format, second, old(Value()))
    {
      if second != lastSecond {
        match clock(format, second) {
          case NoLocalTime =>
            return "";
          case NoFormat(left) =>
            cachedDateTime := left;
            return "";
          case Converted(text) =>
            cachedDateTime := text;
            lastSecond := second;
        }
      }
      appended := cachedDateTime;
    }
  }

  /** The storage of the thread-local caches: one for each thread that has needed one. */
  class ThreadStorage {
    var caches: map<nat, ThreadCache>

    ghost predicate Valid()
      reads this
    {
      forall t, u :: t in caches && u in caches && caches[t] == caches[u] ==> t == u
    }

    ghost function View(): map<nat, Cache>
      reads this, caches.Values
    {
      map t | t in caches :: caches[t].Value()
    }

    constructor ()
      ensures Valid() && caches == map[]
    {
      caches := map[];
    }

    method CacheFor(thread: nat) returns (cache: ThreadCache)
      requires Valid()
      modifies this
      ensures Valid() && thread in caches && caches[thread] == cache
      ensures if thread in old(caches) then caches == old(caches)
              else fresh(cache) && cache.Value() == EMPTY && caches == old(caches)[thread := cache]
    {
      if thread !in caches {
        cache := new ThreadCache();
        caches := caches[thread := cache];
      }
      cache := caches[thread];
    }
  }

  // ----- Whole runs of a thread -----

  datatype Request = Request(format: string, second: int)

  function Outputs(clock: Clock, requests: seq<Request>, cache: Cache): seq<string> {
    if requests == [] then []
    else
      var o := Render(clock, requests[0].format, requests[0].second, cache);
      [o.text] + Outputs(clock, requests[1..], o.cache)
  }

  /** The calls of `localtime_r` and `strftime` a run makes. */
  function ConversionCount(clock: Clock, requests: seq<Request>, cache: Cache): nat {
    if requests == [] then 0
    else
      var r := requests[0];
      (if r.second == cache.lastSecond then 0 else 1)
      + ConversionCount(clock, requests[1..], Render(clock, r.format, r.second, cache).cache)
  }

  /** Every conversion the run could ask for succeeds; `strftime` then returned a positive size. */
  ghost predicate Converts(clock: Clock, requests: seq<Request>) {
    forall k :: 0 <= k < |requests| ==> ConvertsOne(clock, requests[k])
  }

  predicate ConvertsOne(clock: Clock, r: Request) {
    clock(r.format, r.second).Converted? && clock(r.format, r.second).text != ""
  }

  /** What a fresh conversion gives. */
  function Fresh(clock: Clock, r: Request): string
    requires ConvertsOne(clock, r)
  {
    clock(r.format, r.second).text
  }

  lemma ConvertsTail(clock: Clock, requests: seq<Request>)
    requires Converts(clock, requests) && requests != []
    ensures ConvertsOne(clock, requests[0]) && Converts(clock, requests[1..])
  {}

  /** What the run would append if every call converted. */
  ghost function FreshTexts(clock: Clock, requests: seq<Request>): seq<string>
    requires Converts(clock, requests)
  {
    if requests == [] then []
    else
      ConvertsTail(clock, requests);
      [Fresh(clock, requests[0])] + FreshTexts(clock, requests[1..])
  }

  ghost predicate Transparent(clock: Clock, requests: seq<Request>, cache: Cache)
    requires Converts(clock, requests)
  {
    Outputs(clock, requests, cache) == FreshTexts(clock, requests)
  }

  /** A call in the same second as the call before it would convert to the same text. */
  ghost predicate Agrees(clock: Clock, requests: seq<Request>, k: nat)
    requires Converts(clock, requests) && 0 < k < |requests|
  {
    requests[k].second == requests[k - 1].second ==> Fresh(clock, requests[k]) == Fresh(clock, requests[k - 1])
  }

  ghost predicate AllAgree(clock: Clock, requests: seq<Request>)
    requires Converts(clock, requests)
  {
    forall k :: 0 < k < |requests| ==> Agrees(clock, requests, k)
  }

  lemma AgreesTail(clock: Clock, requests: seq<Request>)
    requires Converts(clock, requests) && |requests| > 1 && Converts(clock, requests[1..])
    ensures AllAgree(clock, requests) <==> Agrees(clock, requests, 1) && AllAgree(clock, requests[1..])
  {
    var tail := requests[1..];
    forall k | 0 < k < |tail| ensures Agrees(clock, tail, k) <==> Agrees(clock, requests, k + 1) {}
    if Agrees(clock, requests, 1) && AllAgree(clock, tail) {
      forall k | 0 < k < |requests| ensures Agrees(clock, requests, k) {
        if k > 1 { assert Agrees(clock, tail, k - 1); }
      }
    }
    if AllAgree(clock, requests) {
      forall k | 0 < k < |tail| ensures Agrees(clock, tail, k) { assert Agrees(clock, requests, k + 1); }
    }
  }

  lemma ConsIsInjective(a: string, x: seq<string>, b: string, y: seq<string>)
    ensures [a] + x == [b] + y <==> a == b && x == y
  {
    if [a] + x == [b] + y {
      assert ([a] + x)[0] == a && ([b] + y)[0] == b;
      assert ([a] + x)[1..] == x && ([b] + y)[1..] == y;
    }
  }

  lemma {:induction false} TransparentFrom(clock: Clock, requests: seq<Request>, cache: Cache)
    requires Converts(clock, requests) && requests != []
    ensures Transparent(clock, requests, cache) <==>
            && (requests[0].second == cache.lastSecond ==> cache.text == Fresh(clock, requests[0]))
            && AllAgree(clock, requests)
  {
    var r, tail := requests[0], requests[1..];
    ConvertsTail(clock, requests);
    var o := Render(clock, r.format, r.second, cache);
    ConsIsInjective(o.text, Outputs(clock, tail, o.cache), Fresh(clock, r), FreshTexts(clock, tail));
    if tail != [] {
      TransparentFrom(clock, tail, o.cache);
      AgreesTail(clock, requests);
    }
  }

  /** On a new thread whose conversions succeed, the cache is invisible exactly when the first call is not in
    * second 0 and consecutive calls in one second ask for formats that give the same text.
    */
  lemma CacheIsTransparentExactly(clock: Clock, requests: seq<Request>)
    requires Converts(clock, requests) && requests != []
    ensures Transparent(clock, requests, EMPTY) <==>
            && requests[0].second != 0
            && AllAgree(clock, requests)
  {
    TransparentFrom(clock, requests, EMPTY);
    ConvertsTail(clock, requests);
  }

  /** With one date format per thread, only the first call matters. */
  lemma OneFormatIsTransparent(clock: Clock, requests: seq<Request>)
    requires Converts(clock, requests) && requests != []
    requires forall k :: 0 <= k < |requests| ==> requests[k].format == requests[0].format
    ensures Transparent(clock, requests, EMPTY) <==> requests[0].second != 0
  {
    CacheIsTransparentExactly(clock, requests);
    forall k | 0 < k < |requests| ensures Agrees(clock, requests, k) {
      assert requests[k].format == requests[k - 1].format;
    }
  }

  /** A new thread believes it has already cached second 0, so a first record of that second has no date. */
  lemma SecondZeroPrintsNothing()
    ensures var clock: Clock := (format, second) => Converted(format);
            var requests := [Request("%H", 0)];
            Converts(clock, requests) && Outputs(clock, requests, EMPTY) == [""]
  {}

  /** A failing `strftime` leaves its characters in the cache but not its second: the next date in the second cached
    * before prints them.
    */
  lemma FailureSpoilsCache(clock: Clock, format: string, second: int, cache: Cache, next: string)
    requires second != cache.lastSecond && clock(format, second).NoFormat?
    ensures var failed := Render(clock, format, second, cache);
            && failed.text == ""
            && Render(clock, next, cache.lastSecond, failed.cache).text == clock(format, second).left
  {}

  /** Two formats on one thread: the second call in a second prints the first call's format. */
  lemma SharedCacheMixesFormats()
    ensures var clock: Clock := (format, second) => Converted(format);
            var requests := [Request("%H", 1), Request("%M", 1)];
            Converts(clock, requests) && Outputs(clock, requests, EMPTY) == ["%H", "%H"]
  {}

  /** The starts of the maximal runs of equal seconds, a run of second `before` at the front not counted. */
  function Changes(requests: seq<Request>, before: int): nat {
    if requests == [] then 0
    else (if requests[0].second == before then 0 else 1) + Changes(requests[1..], requests[0].second)
  }

  /** One conversion per maximal run of equal seconds. */
  lemma {:induction false} OneConversionPerRun(clock: Clock, requests: seq<Request>, cache: Cache)
    requires Converts(clock, requests)
    ensures ConversionCount(clock, requests, cache) == Changes(requests, cache.lastSecond)
  {
    if requests != [] {
      ConvertsTail(clock, requests);
      OneConversionPerRun(clock, requests[1..], Render(clock, requests[0].format, requests[0].second, cache).cache);
    }
  }
}
