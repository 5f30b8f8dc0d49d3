/**
 Concrete requests against small asset stores: how paths clean, which name is
 looked up and where the request ends up.
 */
module Scenarios {
  import opened PathElements
  import opened LexicalPath
  import opened SpaHandler

  /** An asset store holding exactly the names in `files`; every other name does not exist. */
  function StoreOpen(files: map<string, Entry>): string -> OpenResult
  {
    name => if name in files then Opened(files[name]) else NotExist
  }

  /** A store with the entry document and one script. */
  function AppStore(): map<string, Entry>
  {
    map["index.html" := File, "app.js" := File]
  }

  /** A name other than the two in `AppStore` does not exist there. */
  lemma NotInStore(name: string)
    requires name != "index.html" && name != "app.js"
    ensures StoreOpen(AppStore())(name) == NotExist
  {
  }

  /** Cleaning `p` step by step: its elements `es`, the surviving stack `st`, the result `c`. */
  lemma CleanExample(p: string, es: seq<string>, st: seq<string>, c: string)
    requires |es| >= 1 && Join(es) == p
    requires Separated(es)
    requires Fold([], es, Rooted(p)) == st
    requires Render(st, Rooted(p)) == c
    ensures Clean(p) == c
  {
    SplitJoin(es);
  }

  lemma CleanCollapsesSeparators()
    ensures Clean("//assets//logo.png") == "/assets/logo.png"
  {
    CleanExample("//assets//logo.png", ["", "", "assets", "", "logo.png"], ["assets", "logo.png"], "/assets/logo.png");
  }

  lemma CleanDropsDotAndTrailingSlash()
    ensures Clean("/a/./b/") == "/a/b"
  {
    CleanExample("/a/./b/", ["", "a", ".", "b", ""], ["a", "b"], "/a/b");
  }

  lemma CleanStopsAtRoot()
    ensures Clean("/a/../../b") == "/b"
  {
    CleanExample("/a/../../b", ["", "a", "..", "..", "b"], ["b"], "/b");
  }

  lemma CleanKeepsLeadingParentWhenUnrooted()
    ensures Clean("a/../../b") == "../b"
  {
    CleanExample("a/../../b", ["a", "..", "..", "b"], ["..", "b"], "../b");
  }

  lemma CleanParentOfRootIsRoot()
    ensures Clean("/..") == "/"
  {
    CleanExample("/..", ["", ".."], [], "/");
  }

  lemma CleanEmptyIsDot()
    ensures Clean("") == "."
  {
    CleanExample("", [""], [], ".");
  }

  /** An existing script is looked up as "app.js" and served as requested. */
  lemma ExistingAssetIsServed()
    ensures Key("/app.js") == "app.js"
    ensures Decide("/app.js", StoreOpen(AppStore())) == "/app.js"
  {
    CleanExample("/app.js", ["", "app.js"], ["app.js"], "/app.js");
    assert "/app.js"[1..] == "app.js";
  }

  lemma ClientRouteKey()
    ensures Key("/dashboard/settings") == "dashboard/settings"
  {
    CleanExample("/dashboard/settings", ["", "dashboard", "settings"], ["dashboard", "settings"], "/dashboard/settings");
    assert "/dashboard/settings"[1..] == "dashboard/settings";
  }

  /** A client-side route that is not an asset falls back to the entry document. */
  lemma ClientRouteFallsBack()
    ensures Decide("/dashboard/settings", StoreOpen(AppStore())) == "/"
  {
    ClientRouteKey();
    NotInStore("dashboard/settings");
    NotExistFallsBack("/dashboard/settings", StoreOpen(AppStore()));
  }

  lemma TraversalKey()
    ensures Key("/../secret.txt") == "secret.txt"
  {
    CleanExample("/../secret.txt", ["", "..", "secret.txt"], ["secret.txt"], "/secret.txt");
    assert "/secret.txt"[1..] == "secret.txt";
  }

  /** A traversal attempt is looked up inside the store and then falls back. */
  lemma TraversalIsNeutralized()
    ensures Decide("/../secret.txt", StoreOpen(AppStore())) == "/"
  {
    TraversalKey();
    NotInStore("secret.txt");
    NotExistFallsBack("/../secret.txt", StoreOpen(AppStore()));
  }

  /** Doubled separators still find the asset, and the request goes on unchanged. */
  lemma DoubledSeparatorsFindAsset()
    ensures Key("//assets//logo.png") == "assets/logo.png"
    ensures Decide("//assets//logo.png", StoreOpen(map["assets/logo.png" := File])) == "//assets//logo.png"
  {
    CleanCollapsesSeparators();
    assert "/assets/logo.png"[1..] == "assets/logo.png";
  }

  /** The root request in an empty store is still handed to the file server
      unchanged, without a lookup. */
  lemma EmptyStoreRoot(req: Request)
    requires req.path == "/"
    ensures Handle(req, StoreOpen(map[])) == [Serve(req)]
  {
  }
}
