/** The request handling of app.py that carries logic: the parameter
    conversions of the search route (app.py:57-75), the folder check and
    start-result mapping of the index route (app.py:86-103) and the
    containment check of the image route (app.py:126-143).

    The filesystem is consulted through inputs (`isDirectory`, `isFile`),
    Python's parsing of numbers written as JSON strings through `parseInt`
    and `parseFloat`, and the image root `BASE_IMAGE_DIR` is the parameter
    `baseDir`. */
module Routes {
  import opened Common
  import Config
  import PosixPath
  import Search
  import Indexing

  /** A JSON value as the request body carries it; `JList` and `JObject`
      stand for any array and any object. */
  datatype Json = JNull | JBool(b: bool) | JInt(i: int) | JReal(r: real) | JText(s: string) | JList | JObject

  /** The outcome of Python's `int(v)` or `float(v)`. */
  datatype Converted<T> = Value(value: T) | ValueError | TypeError

  /** Python's `int(x)` on a float: truncation toward zero. */
  function Truncate(x: real): (n: int)
    ensures 0.0 <= x ==> 0 <= n && n as real <= x < n as real + 1.0
    ensures x < 0.0 ==> n <= 0 && n as real - 1.0 < x <= n as real
  {
    if x >= 0.0 then x.Floor else -((-x).Floor)
  }

  /** `int(v)`: a bool is 0 or 1, a float truncates, a string is parsed
      (None where Python raises ValueError), and null, arrays and objects
      raise TypeError. */
  function ToInt(v: Json, parseInt: string -> Option<int>): Converted<int>
  {
    match v
    case JNull => TypeError
    case JBool(b) => Value(if b then 1 else 0)
    case JInt(i) => Value(i)
    case JReal(r) => Value(Truncate(r))
    case JText(s) => if parseInt(s).Some? then Value(parseInt(s).value) else ValueError
    case JList => TypeError
    case JObject => TypeError
  }

  /** `float(v)`, with the same cases as ToInt. */
  function ToFloat(v: Json, parseFloat: string -> Option<real>): Converted<real>
  {
    match v
    case JNull => TypeError
    case JBool(b) => Value(if b then 1.0 else 0.0)
    case JInt(i) => Value(i as real)
    case JReal(r) => Value(r)
    case JText(s) => if parseFloat(s).Some? then Value(parseFloat(s).value) else ValueError
    case JList => TypeError
    case JObject => TypeError
  }

  /** What a route answers: the body, and the HTTP status code. */
  datatype Body =
    | Error(error: string)
    | SearchBody(reply: Search.Reply)
    | Started(message: string, status: Indexing.Status)
    | FileAt(path: string)

  datatype Response = Response(status: int, body: Body)

  const InvalidParameters := "Invalid parameters"
  const InternalError := "Internal server error"
  const AlreadyIndexing := "Indexing already in progress"
  const IndexingStarted := "Indexing started"
  const AccessDenied := "Access denied"
  const ImageNotFound := "Image not found"

  /** `int(data.get('top_k', DEFAULT_SEARCH_LIMIT))`. */
  function RequestedLimit(topK: Option<Json>, parseInt: string -> Option<int>): Converted<int>
  {
    ToInt(topK.GetOr(JInt(Config.DefaultSearchLimit)), parseInt)
  }

  /** The `top_k` handed to the service (app.py:60): the requested number
      capped at MAX_SEARCH_LIMIT, 48 when absent; conversion errors pass
      through. */
  function SearchLimit(topK: Option<Json>, parseInt: string -> Option<int>): (r: Converted<int>)
    ensures r.Value? <==> RequestedLimit(topK, parseInt).Value?
    ensures !r.Value? ==> r == RequestedLimit(topK, parseInt)
    ensures r.Value? ==> var n := RequestedLimit(topK, parseInt).value;
      && r.value <= Config.MaxSearchLimit
      && (n <= Config.MaxSearchLimit ==> r.value == n)
      && (n >= Config.MaxSearchLimit ==> r.value == Config.MaxSearchLimit)
    ensures topK.None? ==> r == Value(Config.DefaultSearchLimit)
  {
    match RequestedLimit(topK, parseInt)
    case Value(n) => Value(Min(n, Config.MaxSearchLimit))
    case ValueError => ValueError
    case TypeError => TypeError
  }

  /** `float(data.get('min_score', 0.0))`. */
  function MinScore(minScore: Option<Json>, parseFloat: string -> Option<real>): Converted<real>
  {
    ToFloat(minScore.GetOr(JReal(0.0)), parseFloat)
  }

  /** `search_api`: `top_k` is converted before `min_score`; a ValueError
      answers 400 "Invalid parameters", any other exception 500; a reply
      holding `error` answers 400, results 200. */
  function SearchApi(query: Option<string>, topK: Option<Json>, minScore: Option<Json>,
                     parseInt: string -> Option<int>, parseFloat: string -> Option<real>,
                     embedded: bool, nearest: int -> Search.StoreReply): (resp: Response)
    ensures resp.status == 500 <==>
      SearchLimit(topK, parseInt).TypeError?
      || (SearchLimit(topK, parseInt).Value? && MinScore(minScore, parseFloat).TypeError?)
    ensures resp.status == 500 ==> resp.body == Error(InternalError)
    ensures resp.body == Error(InvalidParameters) <==>
      SearchLimit(topK, parseInt).ValueError?
      || (SearchLimit(topK, parseInt).Value? && MinScore(minScore, parseFloat).ValueError?)
    ensures resp.body.Error? ==> resp.status != 200
    ensures resp.status == 200 <==> resp.body.SearchBody? && resp.body.reply.Results?
    ensures resp.status == 200 || resp.status == 400 || resp.status == 500
    ensures SearchLimit(topK, parseInt).Value? && MinScore(minScore, parseFloat).Value? ==>
      resp.body == SearchBody(Search.Search(query.GetOr(""), SearchLimit(topK, parseInt).value,
                                            MinScore(minScore, parseFloat).value, embedded, nearest))
  {
    match SearchLimit(topK, parseInt)
    case TypeError => Response(500, Error(InternalError))
    case ValueError => Response(400, Error(InvalidParameters))
    case Value(limit) =>
      match MinScore(minScore, parseFloat)
      case TypeError => Response(500, Error(InternalError))
      case ValueError => Response(400, Error(InvalidParameters))
      case Value(score) =>
        var reply := Search.Search(query.GetOr(""), limit, score, embedded, nearest);
        Response(if reply.Failure? then 400 else 200, SearchBody(reply))
  }

  /** The store is never asked for more than MAX_SEARCH_LIMIT hits: what it
      would answer for larger limits cannot change the response. */
  lemma StoreAskedWithinMax(query: Option<string>, topK: Option<Json>, minScore: Option<Json>,
                            parseInt: string -> Option<int>, parseFloat: string -> Option<real>,
                            embedded: bool, nearest1: int -> Search.StoreReply,
                            nearest2: int -> Search.StoreReply)
    requires forall k :: k <= Config.MaxSearchLimit ==> nearest1(k) == nearest2(k)
    ensures SearchApi(query, topK, minScore, parseInt, parseFloat, embedded, nearest1)
         == SearchApi(query, topK, minScore, parseInt, parseFloat, embedded, nearest2)
  {
  }

  /** Every `top_k` of MAX_SEARCH_LIMIT or more gives the same response. */
  lemma LargeLimitsAnswerAlike(query: Option<string>, a: int, b: int, minScore: Option<Json>,
                               parseInt: string -> Option<int>, parseFloat: string -> Option<real>,
                               embedded: bool, nearest: int -> Search.StoreReply)
    requires a >= Config.MaxSearchLimit && b >= Config.MaxSearchLimit
    ensures SearchApi(query, Some(JInt(a)), minScore, parseInt, parseFloat, embedded, nearest)
         == SearchApi(query, Some(JInt(b)), minScore, parseInt, parseFloat, embedded, nearest)
  {
  }

  /** Fractional and boolean limits convert the way Python's `int` does:
      12.9 gives 12, -0.5 gives 0, true gives 1. */
  lemma OddLimits(parseInt: string -> Option<int>)
    ensures SearchLimit(Some(JReal(12.9)), parseInt) == Value(12)
    ensures SearchLimit(Some(JReal(-0.5)), parseInt) == Value(0)
    ensures SearchLimit(Some(JBool(true)), parseInt) == Value(1)
  {
    assert Truncate(12.9) == 12;
    assert Truncate(-0.5) == 0;
  }

  /** A JSON body with none of the fields (`{}`) is answered 400
      "Query is required", without consulting the model or the store. */
  lemma EmptyRequest(parseInt: string -> Option<int>, parseFloat: string -> Option<real>,
                     embedded: bool, nearest: int -> Search.StoreReply)
    ensures SearchApi(None, None, None, parseInt, parseFloat, embedded, nearest)
         == Response(400, SearchBody(Search.Failure(Search.QueryRequired)))
  {
  }

  /** `start_indexing`: the folder (BASE_IMAGE_DIR when absent) must be a
      directory, else 404; a refused start answers 400; a successful one
      answers 200 with the status as the start left it. */
  method StartIndexing(service: Indexing.ImageSearchService, folder: Option<string>, baseDir: string,
                       isDirectory: string -> bool)
    returns (resp: Response)
    requires service.Valid()
    modifies service
    ensures service.Valid()
    ensures var f := folder.GetOr(baseDir);
      && (!isDirectory(f) ==> resp == Response(404, Error("Folder not found: " + f)))
      && (isDirectory(f) && old(service.isIndexing) ==> resp == Response(400, Error(AlreadyIndexing)))
      && (isDirectory(f) && !old(service.isIndexing) ==>
            resp == Response(200, Started(IndexingStarted, Indexing.Status(true, 0, 0, Indexing.Starting))))
    ensures resp.status != 200 ==> unchanged(service)
    ensures resp.status == 200 ==>
      service.isIndexing && service.progress == 0 && service.total == 0
      && service.message == Indexing.Starting && service.collection == old(service.collection)
  {
    var f := folder.GetOr(baseDir);
    if !isDirectory(f) {
      return Response(404, Error("Folder not found: " + f));
    }
    var started := service.StartIndexingThread();
    if started {
      var status := service.GetIndexingStatus();
      resp := Response(200, Started(IndexingStarted, status));
    } else {
      resp := Response(400, Error(AlreadyIndexing));
    }
  }

  /** The normalised path the image route resolves a request to. */
  function Resolved(baseDir: string, relative: string): (p: string)
    requires PosixPath.IsAbsolute(baseDir)
    ensures PosixPath.IsAbsolute(p)
  {
    var joined := PosixPath.Join(baseDir, relative);
    assert joined[0] == '/' by {
      if !PosixPath.IsAbsolute(relative) {
        assert joined[..|baseDir|] == baseDir;
      }
    }
    PosixPath.RealPath(joined)
  }

  /** `serve_image`: the resolved path must start with the resolved base
      (403 otherwise); then it is served when it is a regular file, else
      404. `isFile` stands for `os.path.exists(p) and os.path.isfile(p)`. */
  function ServeImage(baseDir: string, relative: string, isFile: string -> bool): (resp: Response)
    requires PosixPath.IsAbsolute(baseDir)
    ensures resp.status == 200 || resp.status == 403 || resp.status == 404
    ensures resp.status == 200 <==> resp.body == FileAt(Resolved(baseDir, relative))
    ensures resp.status == 403 <==> !StartsWith(Resolved(baseDir, relative), PosixPath.RealPath(baseDir))
    ensures resp.status == 200 <==>
      StartsWith(Resolved(baseDir, relative), PosixPath.RealPath(baseDir)) && isFile(Resolved(baseDir, relative))
  {
    var realPath := Resolved(baseDir, relative);
    if !StartsWith(realPath, PosixPath.RealPath(baseDir)) then Response(403, Error(AccessDenied))
    else if isFile(realPath) then Response(200, FileAt(realPath))
    else Response(404, Error(ImageNotFound))
  }

  /** Components of the path a request resolves to. */
  function Target(baseDir: string, relative: string): seq<string>
    requires PosixPath.IsAbsolute(baseDir)
  {
    PosixPath.Components(PosixPath.Join(baseDir, relative))
  }

  /** When the route denies access, in terms of path components: with base
      components `b` and target components `r`, access is allowed exactly
      when `b` is the root, or `r` agrees with `b` up to its last component
      and `r`'s component there merely starts with `b`'s last one. The
      test is decided before, and independently of, the file's existence. */
  lemma AccessRule(baseDir: string, relative: string, isFile: string -> bool)
    requires PosixPath.IsAbsolute(baseDir)
    ensures var b, r := PosixPath.Components(baseDir), Target(baseDir, relative);
      ServeImage(baseDir, relative, isFile).status == 403 <==>
        !(b == [] || (|b| <= |r| && r[..|b| - 1] == b[..|b| - 1] && StartsWith(r[|b| - 1], b[|b| - 1])))
  {
    var b, r := PosixPath.Components(baseDir), Target(baseDir, relative);
    var rb := PosixPath.Render(b);
    var rr := PosixPath.Render(r);
    assert rr == Resolved(baseDir, relative);
    if b == [] {
      assert rb == "/";
      assert StartsWith(rr, rb);
    } else {
      PosixPath.SlashedLength(b);
      assert rb == PosixPath.Slashed(b);
      if r == [] {
        assert rr == "/";
        assert !StartsWith(rr, rb);
      } else {
        assert rr == PosixPath.Slashed(r);
        PosixPath.SlashedPrefix(b, r);
      }
    }
  }

  /** Every path inside the base passes the check. */
  lemma InsideIsAllowed(baseDir: string, relative: string, isFile: string -> bool)
    requires PosixPath.IsAbsolute(baseDir)
    requires var b, r := PosixPath.Components(baseDir), Target(baseDir, relative);
      |b| <= |r| && r[..|b|] == b
    ensures ServeImage(baseDir, relative, isFile).status != 403
  {
    AccessRule(baseDir, relative, isFile);
    var b, r := PosixPath.Components(baseDir), Target(baseDir, relative);
    if b != [] {
      assert r[..|b| - 1] == b[..|b| - 1] && r[|b| - 1] == b[|b| - 1];
    }
  }

  /** An image the job indexed is served through the `relative_path` it
      stored: the route resolves it to the file itself. */
  lemma IndexedImageIsServed(p: seq<string>, base: seq<string>, isFile: string -> bool)
    requires PosixPath.Canonical(p) && PosixPath.Canonical(base)
    requires |base| < |p| && p[..|base|] == base
    requires isFile(PosixPath.Render(p))
    ensures Indexing.RelativeTo(p, base).Some?
    ensures ServeImage(PosixPath.Render(base), Indexing.RelativeTo(p, base).value, isFile)
         == Response(200, FileAt(PosixPath.Render(p)))
  {
    var baseDir := PosixPath.Render(base);
    Indexing.RelativePathLocatesFile(p, base);
    var rel := Indexing.RelativeTo(p, base).value;
    PosixPath.ComponentsOfRender(base);
    assert Target(baseDir, rel) == p;
    assert p[..|base|] == base;
    InsideIsAllowed(baseDir, rel, isFile);
  }

  /** A request made only of `..` pieces climbs out of the base and is
      denied, whatever exists. */
  lemma ParentsAreDenied(baseDir: string, k: nat, isFile: string -> bool)
    requires PosixPath.IsAbsolute(baseDir) && PosixPath.Components(baseDir) != [] && k >= 1
    ensures ServeImage(baseDir, PosixPath.Glue(PosixPath.Parents(k)), isFile).status == 403
  {
    var b := PosixPath.Components(baseDir);
    var ps := PosixPath.Parents(k);
    var rel := PosixPath.Glue(ps);
    assert !PosixPath.IsAbsolute(rel) by {
      if k > 1 {
        assert rel == ps[0] + ("/" + PosixPath.Glue(ps[1..]));
      }
      assert rel[0] == ps[0][0] == '.';
    }
    PosixPath.JoinComponents(baseDir, rel);
    PosixPath.SplitGlue(ps);
    PosixPath.ResolveParents(b, k, []);
    assert ps + [] == ps;
    assert |Target(baseDir, rel)| < |b|;
    AccessRule(baseDir, rel, isFile);
  }

  /** The check is a string prefix test, so a sibling directory whose name
      extends the base's last component passes it although it lies outside
      the base: `../<last><suffix>/<name>` is let through. */
  lemma SiblingWithBasePrefixPasses(baseDir: string, suffix: string, name: string, isFile: string -> bool)
    requires PosixPath.IsAbsolute(baseDir) && PosixPath.Components(baseDir) != []
    requires suffix != "" && PosixPath.SlashFree(suffix) && PosixPath.IsName(name)
    ensures var b := PosixPath.Components(baseDir);
      var rel := PosixPath.Glue(["..", b[|b| - 1] + suffix, name]);
      var r := Target(baseDir, rel);
      && !(|b| <= |r| && r[..|b|] == b)
      && ServeImage(baseDir, rel, isFile).status != 403
      && (isFile(Resolved(baseDir, rel)) ==> ServeImage(baseDir, rel, isFile).status == 200)
  {
    var b := PosixPath.Components(baseDir);
    var last := b[|b| - 1];
    var sibling := last + suffix;
    var parts := ["..", sibling, name];
    var rel := PosixPath.Glue(parts);
    assert rel == ".." + "/" + PosixPath.Glue(parts[1..]);
    assert PosixPath.SlashFree(sibling) by {
      assert forall c :: c in sibling ==> c in last || c in suffix;
    }
    assert PosixPath.IsName(sibling) by {
      assert |sibling| > |last| >= 1;
      assert sibling[..|last|] == last && last != ".";
      assert sibling != "..";
    }
    PosixPath.JoinComponents(baseDir, rel);
    PosixPath.SplitGlue(parts);
    PosixPath.ResolveParents(b, 1, [sibling, name]);
    assert PosixPath.Parents(1) + [sibling, name] == parts;
    var up := b[..|b| - 1];
    PosixPath.ResolveNames(up, [sibling, name]);
    var r := Target(baseDir, rel);
    assert r == up + [sibling, name];
    assert r[|b| - 1] == sibling != last;
    AccessRule(baseDir, rel, isFile);
    assert r[..|b| - 1] == up;
  }

  /** `/api/image/../../etc/passwd` under `/srv/app/scraped_images` is
      denied. */
  lemma PasswdIsDenied(isFile: string -> bool)
    ensures ServeImage(PosixPath.Render(["srv", "app", "scraped_images"]),
                       PosixPath.Glue(["..", "..", "etc", "passwd"]), isFile).status == 403
  {
    var base := ["srv", "app", "scraped_images"];
    var parts := ["..", "..", "etc", "passwd"];
    var baseDir := PosixPath.Render(base);
    var rel := PosixPath.Glue(parts);
    assert rel == ".." + "/" + (".." + "/" + ("etc" + "/" + "passwd"));
    PosixPath.ComponentsOfRender(base);
    PosixPath.JoinComponents(baseDir, rel);
    PosixPath.SplitGlue(parts);
    PosixPath.ResolveParents(base, 2, ["etc", "passwd"]);
    assert PosixPath.Parents(2) + ["etc", "passwd"] == parts;
    PosixPath.ResolveNames(["srv"], ["etc", "passwd"]);
    assert Target(baseDir, rel) == ["srv", "etc", "passwd"];
    AccessRule(baseDir, rel, isFile);
  }
}
