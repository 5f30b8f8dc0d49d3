/**
 The single-page-application fallback handler of glancr's server.

 Every request goes to one static file server. Before delegating, the
 handler looks the cleaned request path up in the asset store; when the store
 reports that the name does not exist, the request path is rewritten to "/"
 so that the file server answers with the entry document instead of a 404.
 The request for "/" itself is delegated straight away, without a lookup.

 The asset store's `Open` is a parameter: which outcome it gives for a
 particular name (including the empty name) is up to the store.
 */
module SpaHandler {
  import opened PathElements
  import opened LexicalPath

  /** What a successful open found. */
  datatype Entry = File | Directory

  /** The three outcomes of opening a name in the asset store that the handler tells apart. */
  datatype OpenResult = Opened(entry: Entry) | NotExist | OtherErr

  /** The parts of an HTTP request the handler can see or change. */
  datatype Request = Request(
    httpMethod: string,  // Go's Request.Method (`method` is a Dafny keyword)
    path: string,
    rawQuery: string,
    header: map<string, seq<string>>)

  /** The observable actions of one invocation of the handler. */
  datatype Effect =
    | Lookup(name: string)  // open `name` in the asset store
    | Serve(request: Request)  // hand the request to the file server
    | Close(name: string)  // close the handle obtained by opening `name`

  /** `s` without the leading `prefix`, or `s` itself when it does not start with it. */
  function TrimPrefix(s: string, prefix: string): string
  {
    if prefix <= s then s[|prefix|..] else s
  }

  /** The asset name looked up for request path `p`: its cleaned form, relative to the root. */
  function Key(p: string): (k: string)
    ensures !Rooted(k)
    ensures Rooted(p) ==> "/" + k == Clean(p)
    ensures !Rooted(p) ==> k == Clean(p)
    ensures Rooted(p) ==> (k == "" <==> Clean(p) == "/")
    ensures Rooted(p) ==> forall e :: e in Split(k) ==> k == "" || (IsName(e) && e != "..")
  {
    KeyShape(p);
    TrimPrefix(Clean(p), "/")
  }

  /** The facts `Key` promises, about the cleaned path with its root trimmed. */
  lemma KeyShape(p: string)
    ensures var k := TrimPrefix(Clean(p), "/");
      && !Rooted(k)
      && (Rooted(p) ==> "/" + k == Clean(p))
      && (!Rooted(p) ==> k == Clean(p))
      && (Rooted(p) ==> forall e :: e in Split(k) ==> k == "" || (IsName(e) && e != ".."))
  {
    var c := Clean(p);
    if Rooted(p) {
      RootedCleanHasNoParent(p);
      assert c == "/" + c[1..];
    }
  }

  /** The path the file server is asked to serve for request path `p`. */
  function Decide(p: string, open: string -> OpenResult): (q: string)
    ensures q == p || q == "/"
    ensures q != p <==> p != "/" && open(Key(p)) == NotExist
  {
    if p == "/" then p
    else if open(Key(p)).NotExist? then "/"
    else p
  }

  /** The requests handed to the file server, in order. */
  function Served(t: seq<Effect>): seq<Request>
  {
    if t == [] then []
    else (if t[0].Serve? then [t[0].request] else []) + Served(t[1..])
  }

  /** The names looked up in the asset store, in order. */
  function LookedUp(t: seq<Effect>): seq<string>
  {
    if t == [] then []
    else (if t[0].Lookup? then [t[0].name] else []) + LookedUp(t[1..])
  }

  /** The names looked up whose open succeeded, in order. */
  function Acquired(t: seq<Effect>, open: string -> OpenResult): seq<string>
  {
    if t == [] then []
    else (if t[0].Lookup? && open(t[0].name).Opened? then [t[0].name] else []) + Acquired(t[1..], open)
  }

  /** The names whose handles were closed, in order. */
  function Closed(t: seq<Effect>): seq<string>
  {
    if t == [] then []
    else (if t[0].Close? then [t[0].name] else []) + Closed(t[1..])
  }

  /** Every close comes after the lookup that opened the handle and after the
      file server was invoked: the handle is held while the request is served. */
  predicate HeldWhileServing(t: seq<Effect>)
  {
    forall i :: 0 <= i < |t| && t[i].Close? ==>
      (exists j :: 0 <= j < i && t[j] == Lookup(t[i].name))
      && (exists j :: 0 <= j < i && t[j].Serve?)
  }

  /** Once the request has been handed to the file server, only closes follow:
      every lookup happens before serving, and serving ends the invocation. */
  predicate OnlyClosesAfterServe(t: seq<Effect>)
  {
    forall i, j :: 0 <= i < j < |t| && t[i].Serve? ==> t[j].Close?
  }

  /** One invocation of the handler on `req`, as the sequence of its effects. */
  function Handle(req: Request, open: string -> OpenResult): (t: seq<Effect>)
    ensures Served(t) == [req.(path := Decide(req.path, open))]
    ensures LookedUp(t) == (if req.path == "/" then [] else [Key(req.path)])
    ensures Closed(t) == Acquired(t, open)
    ensures HeldWhileServing(t)
    ensures OnlyClosesAfterServe(t)
  {
    if req.path == "/" then
      assert Served([Serve(req)]) == [req] + Served([]);
      [Serve(req)]
    else
      var name := Key(req.path);
      var result := open(name);
      var served := if result.NotExist? then req.(path := "/") else req;
      var closes := if result.Opened? then [Close(name)] else [];
      var t := [Lookup(name), Serve(served)] + closes;
      assert t[1..] == [Serve(served)] + closes;
      assert t[2..] == closes;
      assert Served(t) == Served(t[1..]) == [served] + Served(closes);
      assert LookedUp(t) == [name] + LookedUp(t[1..]) && LookedUp(t[1..]) == LookedUp(closes);
      assert Closed(t) == Closed(t[1..]) == Closed(closes);
      assert Acquired(t, open) == (if result.Opened? then [name] else []) + Acquired(t[1..], open);
      assert Acquired(t[1..], open) == Acquired(closes, open);
      assert closes != [] ==> closes[1..] == [];
      assert Served(closes) == [] && LookedUp(closes) == [] && Acquired(closes, open) == [];
      assert Closed(closes) == (if result.Opened? then [name] else []);
      t
  }

  /** The root request is delegated unchanged and nothing is looked up. */
  lemma RootFastPath(req: Request, open: string -> OpenResult)
    requires req.path == "/"
    ensures Handle(req, open) == [Serve(req)]
    ensures LookedUp(Handle(req, open)) == []
  {
  }

  /** The root request is served the same way whatever the asset store holds. */
  lemma RootIndependentOfStore(req: Request, open1: string -> OpenResult, open2: string -> OpenResult)
    requires req.path == "/"
    ensures Handle(req, open1) == Handle(req, open2)
  {
  }

  /** For a rooted request path the looked-up name is relative and has no ".."
      element, so it cannot reach outside the asset root. */
  lemma LookupStaysUnderRoot(req: Request, open: string -> OpenResult)
    requires Rooted(req.path)
    ensures forall n :: n in LookedUp(Handle(req, open)) ==>
      !Rooted(n) && forall e :: e in Split(n) ==> n == "" || (IsName(e) && e != "..")
  {
  }

  /** A name the store does not have sends the request to the entry document. */
  lemma NotExistFallsBack(p: string, open: string -> OpenResult)
    requires p != "/"
    requires open(Key(p)) == NotExist
    ensures Decide(p, open) == "/"
  {
  }

  /** A name the store opens, file or directory, leaves the request path as it was. */
  lemma FoundPassesThrough(p: string, open: string -> OpenResult)
    requires open(Key(p)).Opened?
    ensures Decide(p, open) == p
  {
  }

  /** Any other open error also leaves the request path as it was. */
  lemma OtherErrorPassesThrough(p: string, open: string -> OpenResult)
    requires open(Key(p)) == OtherErr
    ensures Decide(p, open) == p
  {
  }

  /** The path given to the file server never triggers a second fallback:
      deciding again on it changes nothing. */
  lemma DecideTerminal(p: string, open: string -> OpenResult)
    ensures Decide(Decide(p, open), open) == Decide(p, open)
  {
  }

  /** The decision depends on the store only through the outcome of the one lookup. */
  lemma DecideDependsOnlyOnLookup(p: string, open1: string -> OpenResult, open2: string -> OpenResult)
    requires open1(Key(p)) == open2(Key(p))
    ensures Decide(p, open1) == Decide(p, open2)
  {
  }

  /** Request paths that clean to the same path look up the same asset name. */
  lemma KeyOfCleanPath(p: string)
    ensures Key(Clean(p)) == Key(p)
  {
    CleanIdempotent(p);
  }
}
