/**
 * The Hoppscotch to Postman conversion engine (src/converter.ts): field
 * mappers for auth, headers and bodies, URL decomposition, the recursive
 * folder mapping, the collection envelope and the environment mapping.
 *
 * The mappers that are expressions in the source are functions here. The
 * builders that push into an array inside `for` loops (`convertFolder`,
 * `processCollectionConversion`, `convertHoppscotchEnvToPostmanEnv`) are
 * methods, each proved equal to a specification function that the lemmas
 * below reason about. File reading, writing and JSON (de)serialisation are
 * not modelled; the base name of the input file is a parameter.
 */
module Converter {

  import opened Wrappers
  import opened Types
  import opened Placeholders
  import opened Segments

  const Multipart := "multipart/form-data"
  const SchemaUri := "https://schema.getpostman.com/json/collection/v2.1.0/collection.json"
  const EnvironmentScope := "environment"
  const EnvironmentExporter := "Postman Environment Converter"
  const CollectionMarker := "_postman_collection"
  const EnvironmentMarker := "_postman_environment"

  // ------------------------------------------------------------------ auth

  /** `hoppscotchAuth.token || ''`. */
  function TokenOf(a: HoppscotchAuth): string {
    a.token.GetOr("")
  }

  /** The bearer entry list Postman expects: exactly one string-typed `token`. */
  predicate IsBearerList(entries: seq<PostmanKeyValue>) {
    |entries| == 1 && entries[0].key == "token" && entries[0].valueType == "string"
  }

  /**
   * convertAuth: total over every auth kind. `bearer` and `inherit` keep
   * their kind; `none` and every unrecognised kind degrade to `noauth`.
   */
  function ConvertAuth(a: HoppscotchAuth): (r: PostmanAuth)
    ensures r.Type() == "bearer" <==> a.authType == "bearer"
    ensures r.Type() == "inherit" <==> a.authType == "inherit"
    ensures r.Type() == "noauth" <==> a.authType != "bearer" && a.authType != "inherit"
    ensures r.BearerAuth? ==> IsBearerList(r.bearer) && r.bearer[0].value == ReplacePlaceholders(TokenOf(a))
  {
    if a.authType == "bearer" then
      BearerAuth([PostmanKeyValue("token", ReplacePlaceholders(TokenOf(a)), "string")])
    else if a.authType == "inherit" then
      InheritAuth
    else
      NoAuth
  }

  /** A bearer token that is a single variable reference keeps pointing at that variable. */
  lemma BearerVariableToken(name: string)
    requires WholeCapture(name)
    ensures ConvertAuth(HoppscotchAuth("bearer", Some("<<" + name + ">>"))) ==
            BearerAuth([PostmanKeyValue("token", "{{" + name + "}}", "string")])
  {
    TranslatePlaceholder(name, "");
    assert "<<" + name + ">>" + "" == "<<" + name + ">>";
    assert "{{" + name + "}}" + ReplacePlaceholders("") == "{{" + name + "}}";
  }

  /** `{authType: "bearer", token: "<<api_key>>"}` converts to a bearer token `{{api_key}}`. */
  lemma BearerApiKeyExample()
    ensures ConvertAuth(HoppscotchAuth("bearer", Some("<<api_key>>"))) ==
            BearerAuth([PostmanKeyValue("token", "{{api_key}}", "string")])
  {
    BearerVariableToken("api_key");
    assert "<<" + "api_key" + ">>" == "<<api_key>>";
    assert "{{" + "api_key" + "}}" == "{{api_key}}";
  }

  // --------------------------------------------------------------- headers

  /** The `.filter((header) => header.active)` step: the active headers, in their original order. */
  function ActiveHeaders(hs: seq<HoppscotchHeader>): (r: seq<HoppscotchHeader>)
    ensures |r| <= |hs|
    ensures forall h :: h in r ==> h in hs && h.active
    ensures forall h :: h in hs && h.active ==> h in r
    decreases |hs|
  {
    if hs == [] then []
    else (if hs[0].active then [hs[0]] else []) + ActiveHeaders(hs[1..])
  }

  /** Filtering a concatenation filters each part in place: relative order is kept. */
  lemma {:induction false} ActiveHeadersAppend(a: seq<HoppscotchHeader>, b: seq<HoppscotchHeader>)
    ensures ActiveHeaders(a + b) == ActiveHeaders(a) + ActiveHeaders(b)
    decreases |a|
  {
    if a == [] {
      assert a + b == b;
    } else {
      assert (a + b)[1..] == a[1..] + b;
      ActiveHeadersAppend(a[1..], b);
    }
  }

  /** The `map` step: key and value translated, only their delimiters changing; the type is always "text". */
  function ConvertHeader(h: HoppscotchHeader): (r: PostmanKeyValue)
    ensures r.valueType == "text"
    ensures Relabels(h.key, r.key) && Relabels(h.value, r.value)
    ensures NoOpener(h.key) ==> r.key == h.key
    ensures NoOpener(h.value) ==> r.value == h.value
  {
    NoOpenerCopied(h.key);
    NoOpenerCopied(h.value);
    PostmanKeyValue(ReplacePlaceholders(h.key), ReplacePlaceholders(h.value), "text")
  }

  /**
   * convertHeaders: `filter` the active headers, then `map` each to a
   * translated key-value pair typed "text". Every output comes from an
   * active header, every active header yields an output, and the count
   * and order are those of the active headers.
   */
  function ConvertHeaders(hs: seq<HoppscotchHeader>): (r: seq<PostmanKeyValue>)
    ensures |r| == |ActiveHeaders(hs)| <= |hs|
    ensures forall k :: 0 <= k < |r| ==> r[k] == ConvertHeader(ActiveHeaders(hs)[k])
    ensures forall p :: p in r ==> exists h :: h in hs && h.active && p == ConvertHeader(h)
    ensures forall h :: h in hs && h.active ==> ConvertHeader(h) in r
  {
    var active := ActiveHeaders(hs);
    var r := seq(|active|, k requires 0 <= k < |active| => ConvertHeader(active[k]));
    assert forall h :: h in hs && h.active ==> ConvertHeader(h) in r by {
      forall h | h in hs && h.active ensures ConvertHeader(h) in r {
        var k :| 0 <= k < |active| && active[k] == h;
        assert r[k] == ConvertHeader(h);
      }
    }
    r
  }

  /** Converting a concatenation converts each part in place: the relative order of headers is kept. */
  lemma ConvertHeadersAppend(a: seq<HoppscotchHeader>, b: seq<HoppscotchHeader>)
    ensures ConvertHeaders(a + b) == ConvertHeaders(a) + ConvertHeaders(b)
  {
    ActiveHeadersAppend(a, b);
    var x, y := ConvertHeaders(a), ConvertHeaders(b);
    var r := ConvertHeaders(a + b);
    forall k | 0 <= k < |r| ensures r[k] == (x + y)[k] {
      if k >= |x| {
        assert ActiveHeaders(a + b)[k] == ActiveHeaders(b)[k - |x|];
      } else {
        assert ActiveHeaders(a + b)[k] == ActiveHeaders(a)[k];
      }
    }
  }

  // ------------------------------------------------------------------ body

  function ConvertFormField(f: FormField): PostmanKeyValue {
    PostmanKeyValue(ReplacePlaceholders(f.key), ReplacePlaceholders(f.value), "text")
  }

  /**
   * convertBody: null only for an absent body; `formdata` only for a
   * multipart content type with an array payload; otherwise `raw`, holding
   * the translated string payload or, for any other payload, `""`.
   */
  function ConvertBody(b: Option<HoppscotchBody>): (r: Option<PostmanBody>)
    ensures r.None? <==> b.None?
    ensures r.Some? ==>
      (r.value.Mode() == "formdata" <==> b.value.contentType == Multipart && b.value.body.FieldsPayload?)
    ensures r.Some? && r.value.FormDataBody? ==>
      |r.value.formdata| == |b.value.body.fields| &&
      forall i :: 0 <= i < |r.value.formdata| ==> r.value.formdata[i] == ConvertFormField(b.value.body.fields[i])
    ensures b.Some? && b.value.body.TextPayload? ==> r == Some(RawBody(ReplacePlaceholders(b.value.body.text)))
    ensures b.Some? && !b.value.body.TextPayload? && r.value.RawBody? ==> r.value.raw == ""
  {
    match b
    case None => None
    case Some(hb) =>
      if hb.contentType == Multipart && hb.body.FieldsPayload? then
        var fields := hb.body.fields;
        Some(FormDataBody(seq(|fields|, i requires 0 <= i < |fields| => ConvertFormField(fields[i]))))
      else if hb.body.TextPayload? then
        Some(RawBody(ReplacePlaceholders(hb.body.text)))
      else
        Some(RawBody(""))
  }

  /** A string payload with no variable reference reaches the `raw` body unchanged, whatever the content type. */
  lemma RawBodyVerbatim(contentType: string, text: string)
    requires NoOpener(text)
    ensures ConvertBody(Some(HoppscotchBody(contentType, TextPayload(text)))) == Some(RawBody(text))
  {
    NoOpenerUnchanged(text);
  }

  // ------------------------------------------------------------------- url

  /**
   * The `url` object: `raw` is the translated endpoint, `host` the first
   * `/`-separated segment and `path` the others. Joining host and path with
   * `/` gives `raw` back, and no segment contains `/`.
   */
  function RequestUrl(endpoint: string): (u: PostmanUrl)
    ensures u.raw == ReplacePlaceholders(endpoint)
    ensures |u.host| == 1
    ensures Join(u.host + u.path, '/') == u.raw
    ensures Split(u.raw, '/') == u.host + u.path
  {
    var raw := ReplacePlaceholders(endpoint);
    var parts := Split(raw, '/');
    JoinSplit(raw, '/');
    assert parts[..1] + parts[1..] == parts;
    PostmanUrl(raw, parts[..1], parts[1..])
  }

  /**
   * The decomposition is not a URL parser: for `scheme//hostName` (as in
   * `http://api.com`) the host is the scheme and the real host name lands
   * in the path after an empty segment.
   */
  lemma UrlWithScheme(scheme: string, hostName: string)
    requires '/' !in scheme && '/' !in hostName
    requires NoOpener(scheme + "//" + hostName)
    ensures RequestUrl(scheme + "//" + hostName).host == [scheme]
    ensures RequestUrl(scheme + "//" + hostName).path == ["", hostName]
  {
    var e := scheme + "//" + hostName;
    NoOpenerUnchanged(e);
    var parts := [scheme, "", hostName];
    assert Join(parts[2..], '/') == hostName;
    assert Join(parts[1..], '/') == "" + ['/'] + hostName;
    assert Join(parts, '/') == e;
    SplitJoin(parts, '/');
  }

  /** An endpoint without `/` is all host and no path. */
  lemma UrlWithoutSlash(endpoint: string)
    requires '/' !in ReplacePlaceholders(endpoint)
    ensures RequestUrl(endpoint).host == [ReplacePlaceholders(endpoint)]
    ensures RequestUrl(endpoint).path == []
  {
    SplitNoSeparator(ReplacePlaceholders(endpoint), '/');
  }

  // --------------------------------------------------------------- request

  /**
   * convertRequest: a leaf named after the request; absent headers count as
   * none, an absent description becomes `""`.
   */
  function ConvertRequest(q: HoppscotchRequest): (r: PostmanItem)
    ensures r.Leaf? && r.name == q.name && r.request.httpMethod == q.httpMethod
    ensures r.request.header == ConvertHeaders(q.headers.GetOr([]))
    ensures |r.request.header| == |ActiveHeaders(q.headers.GetOr([]))|
    ensures q.headers.None? ==> r.request.header == []
    ensures r.request.body == ConvertBody(q.body)
    ensures r.request.auth == ConvertAuth(q.auth)
    ensures q.description.None? ==> r.request.description == ""
    ensures q.description.Some? ==> r.request.description == q.description.value
    ensures r.request.url.raw == ReplacePlaceholders(q.endpoint) && |r.request.url.host| == 1
    ensures Join(r.request.url.host + r.request.url.path, '/') == r.request.url.raw
  {
    Leaf(q.name, PostmanRequest(
      q.httpMethod,
      ConvertHeaders(q.headers.GetOr([])),
      ConvertBody(q.body),
      RequestUrl(q.endpoint),
      ConvertAuth(q.auth),
      q.description.GetOr("")))
  }

  /** The request items, one per request, in order. */
  function RequestItems(qs: seq<HoppscotchRequest>): (r: seq<PostmanItem>)
    ensures |r| == |qs|
    ensures forall i :: 0 <= i < |qs| ==> r[i] == ConvertRequest(qs[i])
  {
    seq(|qs|, i requires 0 <= i < |qs| => ConvertRequest(qs[i]))
  }

  // --------------------------------------------------------------- folders

  /** The container items of a folder list, one per folder, in order; none for an absent list. */
  function FolderItems(l: FolderList): (r: seq<PostmanItem>)
    decreases l
  {
    match l
    case NoFolders => []
    case Folders(fs) => seq(|fs|, i requires 0 <= i < |fs| => FolderItem(fs[i]))
  }

  /**
   * The specification of convertFolder: a container named after the
   * folder, holding its sub-folders' containers and then its requests'
   * leaves.
   */
  function FolderItem(f: HoppscotchFolder): (r: PostmanItem)
    ensures r.Container? && r.name == f.name
    ensures |r.item| == |f.folders.Elements()| + |f.requests.GetOr([])|
    decreases f
  {
    Container(f.name, FolderItems(f.folders) + RequestItems(f.requests.GetOr([])))
  }

  /** An absent sub-folder or request list converts exactly like an empty one, whatever the other list holds. */
  lemma AbsentListsAsEmpty(name: string, folders: FolderList, requests: Option<seq<HoppscotchRequest>>)
    ensures FolderItem(HoppscotchFolder(name, NoFolders, requests)) == FolderItem(HoppscotchFolder(name, Folders([]), requests))
    ensures FolderItem(HoppscotchFolder(name, folders, None)) == FolderItem(HoppscotchFolder(name, folders, Some([])))
    ensures FolderItem(HoppscotchFolder(name, NoFolders, None)) == Container(name, [])
  {
  }

  /** The number of requests in a folder tree, at every depth. */
  function RequestCount(f: HoppscotchFolder): nat
    decreases f
  {
    |f.requests.GetOr([])| +
    match f.folders
    case NoFolders => 0
    case Folders(fs) => Sum(seq(|fs|, i requires 0 <= i < |fs| => RequestCount(fs[i])))
  }

  /** The number of folders in a folder tree, the root included. */
  function FolderCount(f: HoppscotchFolder): nat
    decreases f
  {
    1 +
    match f.folders
    case NoFolders => 0
    case Folders(fs) => Sum(seq(|fs|, i requires 0 <= i < |fs| => FolderCount(fs[i])))
  }

  /** The number of leaves (requests) in an item tree. */
  function LeafCount(it: PostmanItem): nat
    decreases it
  {
    match it
    case Leaf(_, _) => 1
    case Container(_, items) => Sum(seq(|items|, i requires 0 <= i < |items| => LeafCount(items[i])))
  }

  /** The number of containers (folders) in an item tree. */
  function ContainerCount(it: PostmanItem): nat
    decreases it
  {
    match it
    case Leaf(_, _) => 0
    case Container(_, items) => 1 + Sum(seq(|items|, i requires 0 <= i < |items| => ContainerCount(items[i])))
  }

  function LeafTotal(items: seq<PostmanItem>): nat {
    Sum(seq(|items|, i requires 0 <= i < |items| => LeafCount(items[i])))
  }

  function ContainerTotal(items: seq<PostmanItem>): nat {
    Sum(seq(|items|, i requires 0 <= i < |items| => ContainerCount(items[i])))
  }

  function Sum(xs: seq<nat>): nat
    decreases |xs|
  {
    if xs == [] then 0 else xs[0] + Sum(xs[1..])
  }

  lemma {:induction false} SumAppend(a: seq<nat>, b: seq<nat>)
    ensures Sum(a + b) == Sum(a) + Sum(b)
    decreases |a|
  {
    if a == [] {
      assert a + b == b;
    } else {
      assert (a + b)[1..] == a[1..] + b;
      SumAppend(a[1..], b);
    }
  }

  lemma {:induction false} SumOfOnes(xs: seq<nat>)
    requires forall i :: 0 <= i < |xs| ==> xs[i] == 1
    ensures Sum(xs) == |xs|
    decreases |xs|
  {
    if xs != [] {
      SumOfOnes(xs[1..]);
    }
  }

  lemma TotalsAppend(a: seq<PostmanItem>, b: seq<PostmanItem>)
    ensures LeafTotal(a + b) == LeafTotal(a) + LeafTotal(b)
    ensures ContainerTotal(a + b) == ContainerTotal(a) + ContainerTotal(b)
  {
    var la := seq(|a|, i requires 0 <= i < |a| => LeafCount(a[i]));
    var lb := seq(|b|, i requires 0 <= i < |b| => LeafCount(b[i]));
    assert seq(|a + b|, i requires 0 <= i < |a + b| => LeafCount((a + b)[i])) == la + lb;
    SumAppend(la, lb);
    var ca := seq(|a|, i requires 0 <= i < |a| => ContainerCount(a[i]));
    var cb := seq(|b|, i requires 0 <= i < |b| => ContainerCount(b[i]));
    assert seq(|a + b|, i requires 0 <= i < |a + b| => ContainerCount((a + b)[i])) == ca + cb;
    SumAppend(ca, cb);
  }

  /** Request items are all leaves and no containers. */
  lemma RequestItemsTotals(qs: seq<HoppscotchRequest>)
    ensures LeafTotal(RequestItems(qs)) == |qs|
    ensures ContainerTotal(RequestItems(qs)) == 0
  {
    var items := RequestItems(qs);
    SumOfOnes(seq(|items|, i requires 0 <= i < |items| => LeafCount(items[i])));
    var zeros := seq(|items|, i requires 0 <= i < |items| => ContainerCount(items[i]));
    assert Sum(zeros) == 0 by { SumOfZeros(zeros); }
  }

  lemma {:induction false} SumOfZeros(xs: seq<nat>)
    requires forall i :: 0 <= i < |xs| ==> xs[i] == 0
    ensures Sum(xs) == 0
    decreases |xs|
  {
    if xs != [] {
      SumOfZeros(xs[1..]);
    }
  }

  /**
   * convertFolder keeps the tree's shape: every request at every depth
   * becomes exactly one leaf and every folder exactly one container.
   */
  lemma {:induction false} FolderItemShape(f: HoppscotchFolder)
    ensures LeafCount(FolderItem(f)) == RequestCount(f)
    ensures ContainerCount(FolderItem(f)) == FolderCount(f)
    decreases f
  {
    FolderItemsShape(f.folders);
    var reqs := RequestItems(f.requests.GetOr([]));
    TotalsAppend(FolderItems(f.folders), reqs);
    RequestItemsTotals(f.requests.GetOr([]));
  }

  /** The sub-folder part of FolderItemShape, over a folder list. */
  lemma {:induction false} FolderItemsShape(l: FolderList)
    ensures LeafTotal(FolderItems(l)) == (match l case NoFolders => 0 case Folders(fs) => Sum(seq(|fs|, i requires 0 <= i < |fs| => RequestCount(fs[i]))))
    ensures ContainerTotal(FolderItems(l)) == (match l case NoFolders => 0 case Folders(fs) => Sum(seq(|fs|, i requires 0 <= i < |fs| => FolderCount(fs[i]))))
    decreases l
  {
    match l
    case NoFolders =>
    case Folders(fs) =>
      var items := FolderItems(l);
      forall i | 0 <= i < |fs|
        ensures LeafCount(items[i]) == RequestCount(fs[i])
        ensures ContainerCount(items[i]) == FolderCount(fs[i])
      {
        FolderItemShape(fs[i]);
      }
      assert seq(|items|, i requires 0 <= i < |items| => LeafCount(items[i])) ==
             seq(|fs|, i requires 0 <= i < |fs| => RequestCount(fs[i]));
      assert seq(|items|, i requires 0 <= i < |items| => ContainerCount(items[i])) ==
             seq(|fs|, i requires 0 <= i < |fs| => FolderCount(fs[i]));
  }

  /**
   * convertFolder, as the source writes it: push each sub-folder's
   * conversion, then each request's, into the container's item list.
   */
  method ConvertFolder(f: HoppscotchFolder) returns (r: PostmanItem)
    ensures r == FolderItem(f)
    decreases f
  {
    ghost var subs := FolderItems(f.folders);
    var item: seq<PostmanItem> := [];
    if f.folders.Folders? {
      var subfolders := f.folders.list;
      for i := 0 to |subfolders|
        invariant item == subs[..i]
      {
        var sub := ConvertFolder(subfolders[i]);
        PushStep([], subs, i);
        item := item + [sub];
      }
    }
    ghost var leaves := RequestItems(f.requests.GetOr([]));
    if f.requests.Some? {
      var requests := f.requests.value;
      for j := 0 to |requests|
        invariant item == subs + leaves[..j]
      {
        var leaf := ConvertRequest(requests[j]);
        PushStep(subs, leaves, j);
        item := item + [leaf];
      }
    }
    r := Container(f.name, item);
  }

  /** One `push` onto an array that holds a + xs[..j] extends it to a + xs[..j + 1]. */
  lemma PushStep<T>(a: seq<T>, xs: seq<T>, j: nat)
    requires j < |xs|
    ensures a + xs[..j + 1] == (a + xs[..j]) + [xs[j]]
  {
    assert xs[..j + 1] == xs[..j] + [xs[j]];
  }

  // ------------------------------------------------------------ collection

  /** Output file name of a converted collection, with the optional array suffix. */
  function CollectionFileName(baseName: string, suffix: string): (r: string)
    ensures |r| == |baseName| + (if suffix != "" then |suffix| + 1 else 0) + |CollectionMarker| + 5
    ensures r[..|baseName|] == baseName
    ensures suffix != "" ==> r[|baseName|..|baseName| + |suffix| + 1] == "_" + suffix
    ensures r[|r| - |CollectionMarker| - 5..] == CollectionMarker + ".json"
  {
    if suffix != "" then baseName + "_" + suffix + "_postman_collection.json"
    else baseName + "_postman_collection.json"
  }

  /** Output file name of a converted environment. */
  function EnvironmentFileName(baseName: string): (r: string)
    ensures |r| == |baseName| + |EnvironmentMarker| + 5
    ensures r[..|baseName|] == baseName
    ensures r[|baseName|..] == EnvironmentMarker + ".json"
  {
    baseName + "_postman_environment.json"
  }

  /**
   * The specification of processCollectionConversion: the envelope with
   * fixed metadata, the top-level folders' containers then the top-level
   * requests' leaves, and the top-level auth converted when present (`{}`
   * otherwise).
   */
  function CollectionOf(c: HoppscotchCollection): (r: PostmanCollection)
    ensures r.info.name == c.name && r.info.postmanId == "" && r.info.description == ""
    ensures r.info.schema == SchemaUri
    ensures r.auth.None? <==> c.auth.None?
    ensures c.auth.Some? ==> r.auth == Some(ConvertAuth(c.auth.value))
    ensures |r.item| == |c.folders.Elements()| + |c.requests.GetOr([])|
    ensures forall i :: 0 <= i < |c.folders.Elements()| ==> r.item[i] == FolderItem(c.folders.Elements()[i])
    ensures forall j :: 0 <= j < |c.requests.GetOr([])| ==>
      r.item[|c.folders.Elements()| + j] == ConvertRequest(c.requests.GetOr([])[j])
  {
    PostmanCollection(
      PostmanInfo(c.name, "", "", SchemaUri),
      FolderItems(c.folders) + RequestItems(c.requests.GetOr([])),
      match c.auth
      case None => None
      case Some(a) => Some(ConvertAuth(a)))
  }

  /** The collection's item list is one item per top-level folder and request, leaves and containers in step with the source tree. */
  lemma CollectionShape(c: HoppscotchCollection)
    ensures |CollectionOf(c).item| == |FolderItems(c.folders)| + |c.requests.GetOr([])|
    ensures LeafTotal(CollectionOf(c).item) ==
            |c.requests.GetOr([])| + (match c.folders case NoFolders => 0 case Folders(fs) => Sum(seq(|fs|, i requires 0 <= i < |fs| => RequestCount(fs[i]))))
    ensures ContainerTotal(CollectionOf(c).item) ==
            (match c.folders case NoFolders => 0 case Folders(fs) => Sum(seq(|fs|, i requires 0 <= i < |fs| => FolderCount(fs[i]))))
  {
    FolderItemsShape(c.folders);
    RequestItemsTotals(c.requests.GetOr([]));
    TotalsAppend(FolderItems(c.folders), RequestItems(c.requests.GetOr([])));
  }

  /**
   * processCollectionConversion, as the source writes it: fill the
   * envelope's item list in two `for` loops, convert the auth when present,
   * and choose the output file name.
   */
  method ProcessCollectionConversion(c: HoppscotchCollection, baseName: string, suffix: string)
    returns (r: PostmanCollection, outputFileName: string)
    ensures r == CollectionOf(c)
    ensures outputFileName == CollectionFileName(baseName, suffix)
  {
    var info := PostmanInfo(c.name, "", "", SchemaUri);
    r := PostmanCollection(info, [], None);
    ghost var subs := FolderItems(c.folders);
    if c.folders.Folders? {
      var folders := c.folders.list;
      for i := 0 to |folders|
        invariant r == PostmanCollection(info, subs[..i], None)
      {
        var item := ConvertFolder(folders[i]);
        PushStep([], subs, i);
        r := r.(item := r.item + [item]);
      }
    }
    ghost var leaves := RequestItems(c.requests.GetOr([]));
    if c.requests.Some? {
      var requests := c.requests.value;
      for j := 0 to |requests|
        invariant r == PostmanCollection(info, subs + leaves[..j], None)
      {
        var leaf := ConvertRequest(requests[j]);
        PushStep(subs, leaves, j);
        r := r.(item := r.item + [leaf]);
      }
    }
    if c.auth.Some? {
      r := r.(auth := Some(ConvertAuth(c.auth.value)));
    }
    if suffix != "" {
      outputFileName := baseName + "_" + suffix + "_postman_collection.json";
    } else {
      outputFileName := baseName + "_postman_collection.json";
    }
  }

  /** An empty collection with `authType: "none"` gives no items and `noauth`. */
  lemma EmptyCollectionExample()
    ensures var r := CollectionOf(HoppscotchCollection("Sample Collection", Folders([]), Some([]), Some(HoppscotchAuth("none", None))));
            r.info.name == "Sample Collection" && |r.item| == 0 && r.auth == Some(NoAuth)
  {
  }

  /** A root request with a JSON string body gives one leaf whose `raw` body is that string, unchanged. */
  lemma RootRequestExample()
    ensures var json := "{\"foo\":\"bar\"}";
            var q := HoppscotchRequest("Root Request", "POST", "http://api.com", Some([]),
                                       HoppscotchAuth("none", None),
                                       Some(HoppscotchBody("application/json", TextPayload(json))), None);
            var r := CollectionOf(HoppscotchCollection("Advanced Collection", Folders([]), Some([q]), Some(HoppscotchAuth("none", None))));
            |r.item| == 1 && r.item[0].name == "Root Request" &&
            r.item[0].Leaf? && r.item[0].request.body == Some(RawBody(json)) &&
            r.item[0].request.body.value.Mode() == "raw"
  {
    var json := "{\"foo\":\"bar\"}";
    assert NoOpener(json);
    RawBodyVerbatim("application/json", json);
  }

  // ----------------------------------------------------------- environment

  function EnvValue(v: HoppscotchEnvVariable): PostmanEnvValue {
    PostmanEnvValue(v.key, v.value, true, "text", v.secret)
  }

  /** The specification of convertHoppscotchEnvToPostmanEnv: one value per variable, in order, with the fixed tags. */
  function EnvironmentOf(e: HoppscotchEnvironment): (r: PostmanEnvironment)
    ensures r.id == e.id && r.name == e.name
    ensures |r.values| == |e.variables|
    ensures forall i :: 0 <= i < |r.values| ==> r.values[i].enabled && r.values[i].valueType == "text"
    ensures r.variableScope == EnvironmentScope && r.exportedAt == "" && r.exportedUsing == EnvironmentExporter
  {
    PostmanEnvironment(e.id, e.name,
      seq(|e.variables|, i requires 0 <= i < |e.variables| => EnvValue(e.variables[i])),
      EnvironmentScope, "", EnvironmentExporter)
  }

  /** Reading the variables back out of a Postman environment. */
  function VariablesOf(p: PostmanEnvironment): (vs: seq<HoppscotchEnvVariable>)
    ensures |vs| == |p.values|
  {
    seq(|p.values|, i requires 0 <= i < |p.values| =>
      HoppscotchEnvVariable(p.values[i].key, p.values[i].value, p.values[i].secret))
  }

  /** The environment mapping loses nothing: keys, values, secret flags and their order come back out. */
  lemma EnvironmentRoundTrip(e: HoppscotchEnvironment)
    ensures VariablesOf(EnvironmentOf(e)) == e.variables
  {
    var vs := VariablesOf(EnvironmentOf(e));
    forall i | 0 <= i < |vs| ensures vs[i] == e.variables[i] {}
  }

  /**
   * convertHoppscotchEnvToPostmanEnv, as the source writes it: push one
   * value per variable, then choose the output file name.
   */
  method ConvertEnvironment(e: HoppscotchEnvironment, baseName: string)
    returns (r: PostmanEnvironment, outputFileName: string)
    ensures r == EnvironmentOf(e)
    ensures outputFileName == EnvironmentFileName(baseName)
  {
    r := PostmanEnvironment(e.id, e.name, [], EnvironmentScope, "", EnvironmentExporter);
    for i := 0 to |e.variables|
      invariant r == PostmanEnvironment(e.id, e.name, EnvironmentOf(e).values[..i], EnvironmentScope, "", EnvironmentExporter)
    {
      var variable := e.variables[i];
      r := r.(values := r.values + [PostmanEnvValue(variable.key, variable.value, true, "text", variable.secret)]);
    }
    outputFileName := baseName + "_postman_environment.json";
  }

  /** `{id: "env_123", name: "Test Environment", variables: [base_url]}` keeps its name and enables its one value. */
  lemma TestEnvironmentExample()
    ensures var r := EnvironmentOf(HoppscotchEnvironment("env_123", "Test Environment",
                                     [HoppscotchEnvVariable("base_url", "http://api.com", false)]));
            r.name == "Test Environment" && |r.values| == 1 && r.values[0].enabled && r.values[0].key == "base_url"
  {
  }
}
