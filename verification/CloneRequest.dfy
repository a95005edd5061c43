/** Cloning requests: headers and parameters are copied, the body is duplicated through a pooled buffer. */
module CloneRequest {
  import opened Wrappers
  import opened Parameters

  type byte = x: int | 0 <= x < 256

  type bytes = seq<byte>

  /** A body: a reader over an array, to be consumed once. */
  class Body {
    const data: array<byte>
    var pos: nat
    var closed: bool

    constructor (data: array<byte>)
      ensures this.data == data && pos == 0 && !closed
    {
      this.data, pos, closed := data, 0, false;
    }

    ghost function Rest(): bytes
      reads this, data
    {
      if pos <= data.Length then data[pos..] else []
    }
  }

  /** Element by element: the first n bytes are kept, and m bytes of src from p on follow them. */
  lemma Appended(was: bytes, now: bytes, src: bytes, n: nat, p: nat, m: nat)
    requires |now| == |was| && n + m <= |now| && p + m <= |src|
    requires forall k :: 0 <= k < n ==> now[k] == was[k]
    requires forall k :: n <= k < n + m ==> now[k] == src[p + (k - n)]
    ensures now[..n + m] == was[..n] + src[p..p + m]
  {
  }

  lemma Split(c: bytes, d: bytes, p: nat, q: nat)
    requires p <= q <= |d|
    ensures (c + d[p..q]) + d[q..] == c + d[p..]
  {
  }

  /** bytes.Buffer: a scratch array that is kept, with whatever it holds, between uses. */
  class Buffer {
    var data: array<byte>
    var len: nat

    constructor ()
      ensures Valid() && Contents() == [] && fresh(data)
    {
      data, len := new byte[0], 0;
    }

    ghost predicate Valid()
      reads this
    {
      len <= data.Length
    }

    ghost function Contents(): bytes
      requires Valid()
      reads this, data
    {
      data[..len]
    }

    method Reset()
      modifies this
      ensures Valid() && Contents() == [] && data == old(data)
    {
      len := 0;
    }

    /** Makes room for at least 512 more bytes. */
    method Grow()
      requires Valid()
      modifies this
      ensures Valid() && len == old(len) && Contents() == old(Contents())
      ensures data.Length >= len + 512
      ensures data == old(data) || fresh(data)
    {
      if data.Length - len < 512 {
        var bigger := new byte[2 * data.Length + 512];
        for i := 0 to len
          invariant bigger[..i] == data[..i]
          modifies bigger
        {
          bigger[i] := data[i];
        }
        data := bigger;
      }
    }

    /** Appends everything the body still holds, in chunks of any size. */
    method ReadFrom(r: Body)
      requires Valid() && data != r.data && r.pos <= r.data.Length
      modifies this, data, r`pos
      ensures Valid() && Contents() == old(Contents()) + old(r.Rest()) && r.pos == r.data.Length
      ensures data == old(data) || fresh(data)
    {
      while r.pos < r.data.Length
        invariant Valid() && data != r.data && r.pos <= r.data.Length
        invariant data == old(data) || fresh(data)
        invariant r.data[..] == old(r.data[..])
        invariant Contents() + r.Rest() == old(Contents()) + old(r.Rest())
        decreases r.data.Length - r.pos
      {
        ghost var was, p := Contents(), r.pos;
        ReadChunk(r);
        Split(was, r.data[..], p, r.pos);
      }
    }

    /** One read of at least one byte. */
    method ReadChunk(r: Body)
      requires Valid() && data != r.data && r.pos < r.data.Length
      modifies this, data, r`pos
      ensures Valid() && old(r.pos) < r.pos <= r.data.Length
      ensures Contents() == old(Contents()) + r.data[old(r.pos)..r.pos]
      ensures data == old(data) || fresh(data)
      ensures r.data[..] == old(r.data[..])
    {
      Grow();
      var n :| 0 < n <= data.Length - len && n <= r.data.Length - r.pos;
      AppendChunk(r, n);
    }

    method AppendChunk(r: Body, n: nat)
      requires Valid() && data != r.data && len + n <= data.Length && r.pos + n <= r.data.Length
      modifies this`len, data, r`pos
      ensures Valid() && r.pos == old(r.pos) + n && len == old(len) + n
      ensures Contents() == old(Contents()) + r.data[old(r.pos)..r.pos]
    {
      for i := 0 to n
        invariant forall k :: 0 <= k < len ==> data[k] == old(data[k])
        invariant forall k :: len <= k < len + i ==> data[k] == r.data[r.pos + (k - len)]
        modifies data
      {
        data[len + i] := r.data[r.pos + i];
      }
      Appended(old(data[..]), data[..], r.data[..], len, r.pos, n);
      len, r.pos := len + n, r.pos + n;
    }
  }

  /** sync.Pool of buffers; a buffer put back may or may not be handed out again. */
  class Pool {
    var free: set<Buffer>
    ghost var buffers: set<Buffer>         // every buffer the pool has ever owned
    ghost var arrays: set<array<byte>>     // and every array

    ghost predicate Valid()
      reads this, free
    {
      && (forall b :: b in free ==> b in buffers && b.data in arrays && b.Valid())
      && (forall a, b :: a in free && b in free && a != b ==> a.data != b.data)
    }

    method Get() returns (b: Buffer)
      requires Valid()
      modifies this
      ensures Valid() && free <= old(free) && b !in free && b.Valid()
      ensures b in buffers && b.data in arrays && forall a :: a in free ==> a.data != b.data
      ensures OnlyNew(this)
      ensures b in old(free) || (fresh(b) && fresh(b.data))
    {
      var reuse: bool := *;
      if free != {} && reuse {
        b :| b in free;
        free := free - {b};
      } else {
        b := new Buffer();
        buffers, arrays := buffers + {b}, arrays + {b.data};
      }
    }

    method Put(b: Buffer)
      requires Valid() && b.Valid() && b in buffers
      requires forall a :: a in free ==> a.data != b.data
      modifies this
      ensures Valid() && free == old(free) + {b}
      ensures buffers == old(buffers) && arrays == old(arrays) + {b.data}
    {
      free, arrays := free + {b}, arrays + {b.data};
    }
  }

  /** Whatever the pool has come to own is new. */
  twostate predicate OnlyNew(pool: Pool)
    reads pool
  {
    && (forall b :: b in pool.buffers && b !in old(pool.buffers) ==> fresh(b))
    && (forall a :: a in pool.arrays && a !in old(pool.arrays) ==> fresh(a))
  }

  class Headers {
    var m: map<string, array<string>>

    constructor (m: map<string, array<string>>)
      ensures this.m == m
    {
      this.m := m;
    }
  }

  /** What is handed on unchanged: the query values are shared between a request and its clones. */
  class Query {
    var m: map<string, seq<string>>
  }

  class Url {
    var text: string

    constructor (text: string)
      ensures this.text == text
    {
      this.text := text;
    }
  }

  /** Parsing the text form of a URL: the text of what comes out, or None if it does not parse. */
  type Parsing = string -> Option<string>

  class Request {
    var verb: string
    var url: Url?
    var path: string
    var query: Query
    var headers: Headers
    var params: Params
    var body: Body?

    constructor (verb: string, url: Url?, path: string, query: Query, headers: Headers, params: Params, body: Body?)
      ensures this.verb == verb && this.url == url && this.path == path && this.query == query
      ensures this.headers == headers && this.params == params && this.body == body
    {
      this.verb, this.url, this.path, this.query := verb, url, path, query;
      this.headers, this.params, this.body := headers, params, body;
    }
  }

  ghost function Arrays(h: Headers): set<array<string>>
    reads h
  {
    set k | k in h.m :: h.m[k]
  }

  /** The frame of what is said about header values needs to know this. */
  lemma ArraysAllocated(h: Headers)
    ensures allocated(Arrays(h))
  {
  }

  /** The header values by key. */
  ghost function HeaderView(h: Headers): map<string, seq<string>>
    reads h, Arrays(h)
  {
    map k | k in h.m :: h.m[k][..]
  }

  ghost function UrlView(u: Url?): Option<string>
    reads u
  {
    if u == null then None else Some(u.text)
  }

  /** A URL is cloned by parsing its text; without a URL, or if it does not parse, the clone has none. */
  method CloneUrl(u: Url?, parse: Parsing) returns (c: Url?)
    ensures c == null || fresh(c)
    ensures UrlView(c) == if u == null then None else parse(u.text)
  {
    c := null;
    if u != null {
      var parsed := parse(u.text);
      if parsed.Some? {
        c := new Url(parsed.value);
      }
    }
  }

  method CopyStrings(vs: array<string>) returns (tmp: array<string>)
    ensures fresh(tmp) && tmp[..] == vs[..]
  {
    tmp := new string[vs.Length];
    for i := 0 to vs.Length
      invariant tmp[..i] == vs[..i]
    {
      tmp[i] := vs[i];
    }
  }

  method CloneRequestHeaders(headers: Headers) returns (c: Headers)
    ensures fresh(c) && (forall a :: a in Arrays(c) ==> fresh(a))
    ensures HeaderView(c) == old(HeaderView(headers))
  {
    var m: map<string, array<string>> := map[];
    var todo := headers.m.Keys;
    while todo != {}
      invariant todo <= headers.m.Keys && m.Keys == headers.m.Keys - todo
      invariant forall k :: k in m ==> fresh(m[k]) && m[k][..] == headers.m[k][..]
      decreases todo
    {
      var k :| k in todo;
      var tmp := CopyStrings(headers.m[k]);
      m := m[k := tmp];
      todo := todo - {k};
    }
    c := new Headers(m);
  }

  method CloneRequestParams(params: Params) returns (c: Params)
    ensures fresh(c) && c.m == params.m
  {
    var m: map<string, string> := map[];
    var todo := params.m.Keys;
    while todo != {}
      invariant todo <= params.m.Keys && m.Keys == params.m.Keys - todo
      invariant forall k :: k in m ==> m[k] == params.m[k]
      decreases todo
    {
      var k :| k in todo;
      m := m[k := params.m[k]];
      todo := todo - {k};
    }
    assert m == params.m;
    c := new Params(m);
  }

  method CopyBytes(b: Buffer) returns (a: array<byte>)
    requires b.Valid()
    ensures fresh(a) && a[..] == b.Contents()
  {
    a := new byte[b.len];
    for i := 0 to b.len
      invariant a[..i] == b.data[..i]
    {
      a[i] := b.data[i];
    }
  }

  /** Empties the body into a buffer that may still hold anything. */
  method Drain(buf: Buffer, body: Body)
    requires buf.Valid() && buf.data != body.data && body.pos <= body.data.Length
    modifies buf, buf.data, body
    ensures buf.Valid() && buf.Contents() == old(body.Rest())
    ensures buf.data == old(buf.data) || fresh(buf.data)
    ensures body.closed
  {
    buf.Reset();
    buf.ReadFrom(body);
    body.closed := true;
  }

  /** Reads the body through the pool and hands out two independent readers of its bytes. */
  method DuplicateBody(pool: Pool, body: Body) returns (original: Body, clone: Body)
    requires pool.Valid() && OwnBody(body, pool)
    modifies pool, pool.buffers, pool.arrays, body
    ensures pool.Valid() && OnlyNew(pool)
    ensures OwnBody(original, pool) && OwnBody(clone, pool)
    ensures fresh(original) && fresh(clone) && original != clone
    ensures fresh(original.data) && fresh(clone.data) && original.data != clone.data
    ensures original.Rest() == clone.Rest() == old(body.Rest())
    ensures body.closed
  {
    hide Pool.Valid, Body.Rest, Buffer.Contents;
    var buf := Borrow(pool, body);
    original := CopyBody(buf);
    clone := CopyBody(buf);
    pool.Put(buf);
  }

  /** Takes a buffer out of the pool and empties the body into it. */
  method Borrow(pool: Pool, body: Body) returns (buf: Buffer)
    requires pool.Valid() && OwnBody(body, pool)
    modifies pool, pool.buffers, pool.arrays, body
    ensures pool.Valid() && OnlyNew(pool) && buf in pool.buffers && (forall b :: b in pool.free ==> b.data != buf.data)
    ensures buf.Valid() && buf.Contents() == old(body.Rest()) && body.closed
    ensures buf.data in pool.arrays || fresh(buf.data)
  {
    hide Pool.Valid, Body.Rest, Buffer.Contents;
    buf := pool.Get();
    Drain(buf, body);
  }

  /** A new reader over a new copy of what the buffer holds. */
  method CopyBody(buf: Buffer) returns (b: Body)
    requires buf.Valid()
    ensures fresh(b) && fresh(b.data) && b.pos == 0 && b.Rest() == buf.Contents()
  {
    var a := CopyBytes(buf);
    b := new Body(a);
  }

  /** The body can be read, and the pool has no hold on it. */
  ghost predicate OwnBody(b: Body, pool: Pool)
    reads b, pool
  {
    b.data !in pool.arrays && b.pos <= b.data.Length
  }

  /** The heads of two requests, that is all but their bodies, share nothing that can be written to, apart from the query. */
  ghost predicate HeadsApart(r: Request, s: Request)
    reads r`headers, r`params, r`url, s`headers, s`params, s`url, r.headers, s.headers
  {
    && r.headers != s.headers && Arrays(r.headers) !! Arrays(s.headers)
    && r.params != s.params
    && (r.url != null ==> r.url != s.url)
  }

  ghost predicate Apart(r: Request, s: Request)
    reads r, s, r.headers, s.headers, r.body, s.body
  {
    HeadsApart(r, s) && (r.body != null && s.body != null ==> r.body != s.body && r.body.data != s.body.data)
  }

  /** Everything of a request but its body and its query is new. */
  twostate predicate NewHead(new c: Request)
    reads c`headers, c`params, c`url, c.headers
  {
    && fresh(c) && fresh(c.headers) && fresh(c.params) && (c.url == null || fresh(c.url))
    && forall a :: a in Arrays(c.headers) ==> fresh(a)
  }

  /** The clone c says the same as r in everything but the body. */
  ghost predicate SameHead(c: Request, r: Request, parse: Parsing)
    reads c`verb, c`url, c`path, c`query, c`headers, c`params, c.url, c.headers, Arrays(c.headers), c.params
    reads r`verb, r`url, r`path, r`query, r`headers, r`params, r.url, r.headers, Arrays(r.headers), r.params
  {
    && c.verb == r.verb && c.path == r.path && c.query == r.query
    && UrlView(c.url) == (if r.url == null then None else parse(r.url.text))
    && HeaderView(c.headers) == HeaderView(r.headers) && c.params.m == r.params.m
  }

  /**
    A deep copy except for the query: whatever the pooled buffers hold, the request and its clone get
    bodies of their own with the original bytes, and headers, parameters and URL of the clone are its own.
   */
  method Clone(pool: Pool, r: Request, parse: Parsing) returns (clone: Request)
    requires pool.Valid()
    requires r.body != null ==> OwnBody(r.body, pool)
    modifies r`body, pool, pool.buffers, pool.arrays, r.body
    ensures pool.Valid() && OnlyNew(pool)
    ensures NewHead(clone) && SameHead(clone, r, parse) && Apart(r, clone)
    ensures old(r.body) == null ==> r.body == null && clone.body == null
    ensures old(r.body) != null ==>
              && r.body != null && clone.body != null && fresh(r.body) && fresh(clone.body)
              && fresh(r.body.data) && fresh(clone.body.data) && r.body != clone.body && r.body.data != clone.body.data
              && OwnBody(r.body, pool) && OwnBody(clone.body, pool)
              && r.body.Rest() == clone.body.Rest() == old(r.body.Rest())
  {
    hide Pool.Valid, SameHead, HeadsApart, OwnBody, Body.Rest, Arrays;
    clone := CopyHead(r, parse);
    ArraysAllocated(r.headers);
    ArraysAllocated(clone.headers);
    if r.body != null {
      DivideBody(pool, r, clone);
    }
  }

  /** Everything but the body; until that is divided the clone still refers to the original one. */
  method CopyHead(r: Request, parse: Parsing) returns (clone: Request)
    ensures NewHead(clone) && SameHead(clone, r, parse) && HeadsApart(r, clone) && clone.body == r.body
  {
    var url := CloneUrl(r.url, parse);
    var headers := CloneRequestHeaders(r.headers);
    var params := CloneRequestParams(r.params);
    clone := new Request(r.verb, url, r.path, r.query, headers, params, r.body);
  }

  /** Gives the request and its clone a body of their own. */
  method DivideBody(pool: Pool, r: Request, clone: Request)
    requires pool.Valid() && r.body != null && OwnBody(r.body, pool) && r != clone
    modifies r`body, clone`body, pool, pool.buffers, pool.arrays, r.body
    ensures pool.Valid() && OnlyNew(pool)
    ensures r.body != null && clone.body != null && fresh(r.body) && fresh(clone.body)
    ensures fresh(r.body.data) && fresh(clone.body.data) && r.body != clone.body && r.body.data != clone.body.data
    ensures OwnBody(r.body, pool) && OwnBody(clone.body, pool)
    ensures r.body.Rest() == clone.body.Rest() == old(r.body.Rest())
  {
    var mine, theirs := DuplicateBody(pool, r.body);
    r.body := mine;
    clone.body := theirs;
  }

  // ----- what callers rely on

  ghost predicate Carries(b: Body, pool: Pool, content: bytes)
    reads b, b.data, pool
  {
    OwnBody(b, pool) && b.Rest() == content
  }

  /** A request made later shares nothing with one that was there before. */
  twostate lemma NewIsApart(c: Request, new m: Request)
    requires NewHead(m) && c.headers == old(c.headers) && Arrays(c.headers) == old(Arrays(c.headers))
    requires c.params == old(c.params) && c.url == old(c.url) && c.body == old(c.body)
    requires m.body != null ==> fresh(m.body) && fresh(m.body.data)
    ensures Apart(c, m)
  {
  }

  /** c is a clone of r with this content, and shares nothing but the query with r. */
  ghost predicate CloneOf(c: Request, r: Request, pool: Pool, content: bytes, parse: Parsing)
    reads c, c.url, c.headers, Arrays(c.headers), c.params, c.body, if c.body == null then {} else {c.body.data}
    reads r, r.url, r.headers, Arrays(r.headers), r.params, r.body, pool
  {
    SameHead(c, r, parse) && Apart(r, c) && c.body != null && Carries(c.body, pool, content)
  }

  lemma RestExact(b: Body)
    requires b.pos <= b.data.Length
    ensures b.Rest() == b.data[b.pos..]
  {
  }

  /** What a clone is, field by field. */
  lemma CloneExact(c: Request, r: Request, pool: Pool, content: bytes, parse: Parsing)
    requires CloneOf(c, r, pool, content, parse)
    ensures c.verb == r.verb && c.path == r.path && c.query == r.query && c.params.m == r.params.m
    ensures c.url == null <==> r.url == null || parse(r.url.text).None?
    ensures c.url != null ==> c.url != r.url && c.url.text == parse(r.url.text).value
    ensures c.headers.m.Keys == r.headers.m.Keys
    ensures forall k :: k in r.headers.m ==> c.headers.m[k][..] == r.headers.m[k][..]
    ensures c.body != null && c.body.pos <= c.body.data.Length && c.body.data[c.body.pos..] == content
    ensures c.body.data !in pool.arrays
    ensures c.headers != r.headers && c.params != r.params
    ensures forall j, k :: j in c.headers.m && k in r.headers.m ==> c.headers.m[j] != r.headers.m[k]
    ensures r.body != null ==> c.body != r.body && c.body.data != r.body.data
  {
    hide Carries, OwnBody, Apart, HeaderView, UrlView, Body.Rest;
    HeadExact(c, r, parse);
    ApartExact(c, r, pool, content);
  }

  lemma HeadExact(c: Request, r: Request, parse: Parsing)
    requires SameHead(c, r, parse)
    ensures c.verb == r.verb && c.path == r.path && c.query == r.query && c.params.m == r.params.m
    ensures c.url == null <==> r.url == null || parse(r.url.text).None?
    ensures c.url != null ==> c.url.text == parse(r.url.text).value
    ensures c.headers.m.Keys == r.headers.m.Keys
    ensures forall k :: k in r.headers.m ==> c.headers.m[k][..] == r.headers.m[k][..]
  {
    var cv, rv := HeaderView(c.headers), HeaderView(r.headers);
    assert cv.Keys == c.headers.m.Keys && rv.Keys == r.headers.m.Keys;
    forall k | k in r.headers.m ensures c.headers.m[k][..] == r.headers.m[k][..] { assert cv[k] == rv[k]; }
  }

  lemma ApartExact(c: Request, r: Request, pool: Pool, content: bytes)
    requires Apart(r, c) && c.body != null && Carries(c.body, pool, content)
    ensures c.body.pos <= c.body.data.Length && c.body.data[c.body.pos..] == content && c.body.data !in pool.arrays
    ensures c.headers != r.headers && c.params != r.params && (c.url != null ==> c.url != r.url)
    ensures forall j, k :: j in c.headers.m && k in r.headers.m ==> c.headers.m[j] != r.headers.m[k]
    ensures r.body != null ==> c.body != r.body && c.body.data != r.body.data
  {
    RestExact(c.body);
    forall j, k | j in c.headers.m && k in r.headers.m ensures c.headers.m[j] != r.headers.m[k] {
      assert c.headers.m[j] in Arrays(c.headers) && r.headers.m[k] in Arrays(r.headers);
    }
  }

  twostate predicate NewClone(new c: Request)
    reads c, c.headers, c.body
  {
    NewHead(c) && c.body != null && fresh(c.body) && fresh(c.body.data)
  }

  /** Everything of the request but its body is as it was. */
  twostate predicate SameAsBefore(r: Request)
    reads r, r.url, r.headers, Arrays(r.headers), r.params
  {
    && r.verb == old(r.verb) && r.path == old(r.path) && r.query == old(r.query) && r.url == old(r.url)
    && UrlView(r.url) == old(UrlView(r.url)) && r.params == old(r.params) && r.params.m == old(r.params.m)
    && r.headers == old(r.headers) && Arrays(r.headers) == old(Arrays(r.headers))
    && HeaderView(r.headers) == old(HeaderView(r.headers))
  }

  twostate predicate OnlyBodyReplaced(r: Request)
    reads r, r.url, r.headers, Arrays(r.headers), r.params
  {
    SameAsBefore(r) && r.body != null && (r.body == old(r.body) || (fresh(r.body) && fresh(r.body.data)))
  }

  ghost predicate AllClones(cs: seq<Request>, r: Request, pool: Pool, content: bytes, parse: Parsing)
    reads *
  {
    && (forall c :: c in cs ==> CloneOf(c, r, pool, content, parse))
    && (forall i, j :: 0 <= i < j < |cs| ==> Apart(cs[i], cs[j]))
  }

  /**
    Clones made one after the other with the same pool all carry the original bytes and say the same as
    the original request; they share nothing but the query with it or with each other.
   */
  method CloneMany(pool: Pool, r: Request, k: nat, parse: Parsing) returns (clones: seq<Request>)
    requires pool.Valid() && r.body != null && OwnBody(r.body, pool)
    modifies r`body, pool, pool.buffers, pool.arrays, r.body
    ensures pool.Valid() && OnlyNew(pool)
    ensures OnlyBodyReplaced(r) && Carries(r.body, pool, old(r.body.Rest()))
    ensures |clones| == k && AllClones(clones, r, pool, old(r.body.Rest()), parse)
    ensures forall c :: c in clones ==> NewClone(c)
  {
    hide Pool.Valid, CloneOf, Apart, AllClones, Arrays, HeaderView, UrlView, OwnBody, Body.Rest;
    clones := [];
    NoClones(r, pool, r.body.Rest(), parse);
    for i := 0 to k
      invariant pool.Valid() && OnlyNew(pool)
      invariant OnlyBodyReplaced(r) && Carries(r.body, pool, old(r.body.Rest()))
      invariant |clones| == i && AllClones(clones, r, pool, old(r.body.Rest()), parse)
      invariant forall c :: c in clones ==> NewClone(c)
    {
      var c := AddClone(pool, r, parse, clones);
      clones := clones + [c];
    }
  }

  lemma NoClones(r: Request, pool: Pool, content: bytes, parse: Parsing)
    ensures AllClones([], r, pool, content, parse)
  {
  }

  /** The clone x holds the content and its head is a clone of that of r. */
  ghost predicate Copies(x: Request, r: Request, content: bytes, parse: Parsing)
    reads x`verb, x`url, x`path, x`query, x`headers, x`params, x.url, x.headers, Arrays(x.headers), x.params
    reads r`verb, r`url, r`path, r`query, r`headers, r`params, r.url, r.headers, Arrays(r.headers), r.params
    reads x`body, x.body, if x.body == null then {} else {x.body.data}
  {
    && SameHead(x, r, parse) && HeadsApart(r, x)
    && x.body != null && x.body.pos <= x.body.data.Length && x.body.Rest() == content
  }

  /** The body of x is neither that of r nor the pool's. */
  ghost predicate BodyAway(x: Request, r: Request, pool: Pool)
    reads x`body, r`body, pool
  {
    && x.body != null && x.body.data !in pool.arrays
    && (r.body != null ==> r.body != x.body && r.body.data != x.body.data)
  }

  lemma CloneOfParts(x: Request, r: Request, pool: Pool, content: bytes, parse: Parsing)
    ensures CloneOf(x, r, pool, content, parse) <==> Copies(x, r, content, parse) && BodyAway(x, r, pool)
    ensures CloneOf(x, r, pool, content, parse) ==> x != r
  {
    hide SameHead;
  }

  lemma PartsOfAll(clones: seq<Request>, r: Request, pool: Pool, content: bytes, parse: Parsing)
    requires AllClones(clones, r, pool, content, parse)
    ensures forall x :: x in clones ==> x != r && Copies(x, r, content, parse) && BodyAway(x, r, pool)
    ensures forall x :: x in clones ==> allocated(Arrays(x.headers))
    ensures forall i, j :: 0 <= i < j < |clones| ==> Apart(clones[i], clones[j])
  {
    hide CloneOf, Copies, Apart, BodyAway;
    forall x | x in clones
      ensures x != r && Copies(x, r, content, parse) && BodyAway(x, r, pool) && allocated(Arrays(x.headers))
    {
      CloneOfParts(x, r, pool, content, parse);
      ArraysAllocated(x.headers);
    }
  }

  lemma AllOfParts(clones: seq<Request>, c: Request, r: Request, pool: Pool, content: bytes, parse: Parsing)
    requires forall x :: x in clones ==> Copies(x, r, content, parse) && BodyAway(x, r, pool) && Apart(x, c)
    requires forall i, j :: 0 <= i < j < |clones| ==> Apart(clones[i], clones[j])
    requires CloneOf(c, r, pool, content, parse)
    ensures AllClones(clones + [c], r, pool, content, parse)
  {
    hide CloneOf, Copies, Apart, BodyAway;
    var all := clones + [c];
    forall x | x in all ensures CloneOf(x, r, pool, content, parse) {
      CloneOfParts(x, r, pool, content, parse);
    }
    forall i, j | 0 <= i < j < |all| ensures Apart(all[i], all[j]) {
      assert all[i] == clones[i] && all[j] == if j < |clones| then clones[j] else c;
    }
  }

  /** One more clone; the others stay clones, and share nothing with the new one. */
  method AddClone(pool: Pool, r: Request, parse: Parsing, ghost clones: seq<Request>) returns (c: Request)
    requires pool.Valid() && r.body != null && OwnBody(r.body, pool)
    requires AllClones(clones, r, pool, r.body.Rest(), parse)
    modifies r`body, pool, pool.buffers, pool.arrays, r.body
    ensures pool.Valid() && OnlyNew(pool)
    ensures OnlyBodyReplaced(r) && Carries(r.body, pool, old(r.body.Rest()))
    ensures AllClones(clones + [c], r, pool, old(r.body.Rest()), parse) && NewClone(c)
    ensures forall x :: x in clones ==>
      && x.headers == old(x.headers) && x.headers.m == old(x.headers.m)
      && x.params == old(x.params) && x.url == old(x.url) && x.body == old(x.body)
  {
    hide AllClones, CloneOf, Copies, Apart, Arrays, Carries, NewHead, OnlyBodyReplaced, OwnBody, SameHead,
      HeadsApart, Pool.Valid, Body.Rest;
    ghost var content := r.body.Rest();
    PartsOfAll(clones, r, pool, content, parse);
    ArraysAllocated(r.headers);
    c := CloneOnce(pool, r, parse);
    forall x | x in clones ensures Copies(x, r, content, parse) && BodyAway(x, r, pool) && Apart(x, c) {
      NewIsApart(x, c);
    }
    forall i, j | 0 <= i < j < |clones| ensures Apart(clones[i], clones[j]) {
      var x, y := clones[i], clones[j];
      assert x in clones && y in clones && old(Apart(x, y));
    }
    AllOfParts(clones, c, r, pool, content, parse);
  }

  /** Clone, for a request with a body, in the terms of CloneMany. */
  method CloneOnce(pool: Pool, r: Request, parse: Parsing) returns (c: Request)
    requires pool.Valid() && r.body != null && OwnBody(r.body, pool)
    modifies r`body, pool, pool.buffers, pool.arrays, r.body
    ensures pool.Valid() && OnlyNew(pool)
    ensures OnlyBodyReplaced(r) && fresh(r.body) && fresh(r.body.data) && Carries(r.body, pool, old(r.body.Rest()))
    ensures NewClone(c) && CloneOf(c, r, pool, old(r.body.Rest()), parse)
  {
    hide Pool.Valid, HeaderView, Body.Rest;
    ArraysAllocated(r.headers);
    c := Clone(pool, r, parse);
  }

  /** Changing a header value of one of two separate requests does not show in the other. */
  method EditHeader(s: Request, other: Request, k: string, i: nat, v: string)
    requires Apart(other, s) && k in s.headers.m && i < s.headers.m[k].Length
    modifies s.headers.m[k]
    ensures HeaderView(other.headers) == old(HeaderView(other.headers))
    ensures HeaderView(s.headers)[k] == old(HeaderView(s.headers))[k][i := v]
  {
    var values := s.headers.m[k];
    assert values in Arrays(s.headers);
    values[i] := v;
    assert forall j :: j in other.headers.m ==> other.headers.m[j] in Arrays(other.headers);
  }

  method EditParam(s: Request, other: Request, k: string, v: string)
    requires Apart(other, s)
    modifies s.params
    ensures other.params.m == old(other.params.m) && s.params.m == old(s.params.m)[k := v]
  {
    s.params.m := s.params.m[k := v];
  }
}
