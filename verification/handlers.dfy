/**
 * The request-path logic of handlers.go: stripping the route a handler is
 * mounted under from the request path, the markdown handler's path
 * normalisation, the raw handler's restricted-suffix check, and the
 * decision the markdown handler takes for a request. Request objects are
 * reduced to their URL path; files are reached through a lookup function.
 */
module Handlers {
  import opened Wrappers
  import opened Text
  import opened Metadata

  /** The refusals of `stripRequestRouting`, in the order it checks them. */
  datatype RouteError =
    | RelativeRequest
    | RouteNoTrailingSlash
    | RouteNoLeadingSlash
    | RouteTooLong
    | RouteMismatch

  function RouteErrorMessage(e: RouteError): (r: string)
    ensures |r| > 0
  {
    match e
    case RelativeRequest => "not compatible with relative requests"
    case RouteNoTrailingSlash => "passed a request route that does not end in a /"
    case RouteNoLeadingSlash => "passed a request route that does not start in a /"
    case RouteTooLong => "request routing path longer than request path"
    case RouteMismatch => "request does not match up to the routed path"
  }

  /** `stripRequestRouting(route, request)` on the request's path. An empty
      path or an empty route is indexed out of range by the code, hence the
      precondition. On success the route, except its final `/`, is removed. */
  function StripRequestRouting(route: string, path: string): (r: Result<string, RouteError>)
    requires |path| > 0 && |route| > 0
    ensures r.Ok? <==> path[0] == '/' && route[|route| - 1] == '/' && route[0] == '/' && HasPrefix(path, route)
    ensures r == Err(RelativeRequest) <==> path[0] != '/'
    ensures r == Err(RouteNoTrailingSlash) <==> path[0] == '/' && route[|route| - 1] != '/'
    ensures r == Err(RouteNoLeadingSlash) <==> path[0] == '/' && route[|route| - 1] == '/' && route[0] != '/'
    ensures r == Err(RouteTooLong) <==>
              path[0] == '/' && route[|route| - 1] == '/' && route[0] == '/' && |route| > |path|
    ensures r.Ok? ==> route[..|route| - 1] + r.value == path && |r.value| > 0 && r.value[0] == '/'
  {
    if path[0] != '/' then Err(RelativeRequest)
    else if route[|route| - 1] != '/' then Err(RouteNoTrailingSlash)
    else if route[0] != '/' then Err(RouteNoLeadingSlash)
    else if |route| > |path| then Err(RouteTooLong)
    else if route != path[..|route|] then Err(RouteMismatch)
    else
      assert path[..|route| - 1] + path[|route| - 1..] == path;
      Ok(path[|route| - 1..])
  }

  /** Stripping undoes mounting: a path `/...` placed under a well-formed
      route comes back unchanged. */
  lemma StripMounted(route: string, rest: string)
    requires |route| > 0 && route[0] == '/' && route[|route| - 1] == '/'
    requires |rest| > 0 && rest[0] == '/'
    ensures StripRequestRouting(route, route[..|route| - 1] + rest) == Ok(rest)
  {
    var path := route[..|route| - 1] + rest;
    assert path[..|route|] == route;
    assert path[|route| - 1..] == rest;
  }

  /** The cases of the routing test. */
  lemma StripRequestRoutingExamples()
    ensures StripRequestRouting("/some/", "/some/weird/path.gif") == Ok("/weird/path.gif")
    ensures StripRequestRouting("/some/weird/", "/some/weird/path.gif") == Ok("/path.gif")
    ensures StripRequestRouting("some/weird/", "/some/weird/path.gif") == Err(RouteNoLeadingSlash)
    ensures StripRequestRouting("/some/weird", "/some/weird/path.gif") == Err(RouteNoTrailingSlash)
    ensures StripRequestRouting("/some/weird/path_is_too_long_by_quite_a_bit/", "/some/weird/path.gif")
              == Err(RouteTooLong)
    ensures StripRequestRouting("/other/junk/", "/some/weird/path.gif") == Err(RouteMismatch)
  {
    StripOneLevel();
    StripTwoLevels();
    StripOtherRoute();
  }

  lemma StripOneLevel()
    ensures StripRequestRouting("/some/", "/some/weird/path.gif") == Ok("/weird/path.gif")
  {
    var route, rest := "/some/", "/weird/path.gif";
    StripMounted(route, rest);
    assert route[..5] + rest == "/some/weird/path.gif";
  }

  lemma StripTwoLevels()
    ensures StripRequestRouting("/some/weird/", "/some/weird/path.gif") == Ok("/path.gif")
  {
    var route, rest := "/some/weird/", "/path.gif";
    StripMounted(route, rest);
    assert route[..11] + rest == "/some/weird/path.gif";
  }

  lemma StripOtherRoute()
    ensures StripRequestRouting("/other/junk/", "/some/weird/path.gif") == Err(RouteMismatch)
  {
    var route, path := "/other/junk/", "/some/weird/path.gif";
    assert path[..12][1] != route[1];
  }

  /** The current handler configuration that the request-path logic reads
      (`ServerSection`). `topicPrefix` is what the markdown handler hands to
      `PrintTopics`. */
  datatype ServerConfig = ServerConfig(
    path: string,
    prefix: string,
    defaultPage: string,
    restricted: seq<string>,
    topicPrefix: string)

  /** An empty request or `/` asks for the default page. */
  function DefaultIfRoot(p: string, defaultPage: string): (r: string)
    ensures p == "" || p == "/" ==> r == defaultPage
    ensures p != "" && p != "/" ==> r == p
  {
    if p == "" || p == "/" then defaultPage else p
  }

  /** The markdown handler's path normalisation: default page for the root,
      then `.md` appended unless already there. */
  function MarkdownPath(p: string, defaultPage: string): (r: string)
    ensures HasSuffix(r, ".md")
    ensures var base := DefaultIfRoot(p, defaultPage);
            (HasSuffix(base, ".md") ==> r == base) && (!HasSuffix(base, ".md") ==> r == base + ".md")
  {
    var base := DefaultIfRoot(p, defaultPage);
    if HasSuffix(base, ".md") then base
    else
      assert (base + ".md")[|base + ".md"| - 3..] == ".md";
      base + ".md"
  }

  /** Normalising a normalised path changes nothing. */
  lemma MarkdownPathIdempotent(p: string, defaultPage: string)
    ensures MarkdownPath(MarkdownPath(p, defaultPage), defaultPage) == MarkdownPath(p, defaultPage)
  {
    var r := MarkdownPath(p, defaultPage);
    assert |r| >= 3;
    assert r != "" && r != "/";
  }

  /** The restricted suffix that stops the raw handler, the first in
      configuration order, if any. */
  function FirstRestrictedSuffix(p: string, restricted: seq<string>): (r: Option<string>)
    ensures r.None? <==> forall i :: 0 <= i < |restricted| ==> !HasSuffix(p, restricted[i])
    ensures r.Some? ==> exists i :: 0 <= i < |restricted| && restricted[i] == r.value && HasSuffix(p, r.value)
                                    && forall j :: 0 <= j < i ==> !HasSuffix(p, restricted[j])
  {
    if |restricted| == 0 then None
    else if HasSuffix(p, restricted[0]) then Some(restricted[0])
    else
      var r := FirstRestrictedSuffix(p, restricted[1..]);
      assert forall j :: 1 <= j < |restricted| ==> restricted[j] == restricted[1..][j - 1];
      r
  }

  /** What a handler answers. `Crash` is a run-time panic of the handler. */
  datatype Reply =
    | Forbidden(message: string)      // HTTP 403
    | NotFound(message: string)       // HTTP 404
    | Crash
    | Serve(file: string)             // the raw handler sends these bytes
    | Render(keywords: string, topics: string, body: string)

  /** The text of the handlers' 403 replies. */
  const NotAllowed := "Request not allowed"

  /** The raw handler after routing: substitute the default page, refuse
      restricted suffixes, then serve the file named by the configured
      directory and the path. `read` stands for reading a file and gives the
      error text when it cannot be read. */
  function ServeRaw(c: ServerConfig, stripped: string, read: string -> Result<string, string>): (r: Reply)
    ensures r.Forbidden? <==> FirstRestrictedSuffix(DefaultIfRoot(stripped, c.defaultPage), c.restricted).Some?
    ensures r.Serve? ==>
              var p := DefaultIfRoot(stripped, c.defaultPage);
              && (forall i :: 0 <= i < |c.restricted| ==> !HasSuffix(p, c.restricted[i]))
              && read(c.path + p) == Ok(r.file)
    ensures r.NotFound? ==> read(c.path + DefaultIfRoot(stripped, c.defaultPage)) == Err(r.message)
    ensures r.Forbidden? ==> r.message == NotAllowed
    ensures !r.Crash? && !r.Render?
  {
    var p := DefaultIfRoot(stripped, c.defaultPage);
    if FirstRestrictedSuffix(p, c.restricted).Some? then Forbidden(NotAllowed)
    else
      match read(c.path + p)
      case Err(msg) => NotFound(msg)
      case Ok(contents) => Serve(contents)
  }

  /** The raw handler as written. A routing failure crashes it: it logs the
      path of the request it did not get back. */
  function RawHandlerAsWritten(c: ServerConfig, requestPath: string, read: string -> Result<string, string>): (r: Reply)
    ensures r.Crash? <==> |requestPath| == 0 || |c.prefix| == 0 || StripRequestRouting(c.prefix, requestPath).Err?
  {
    if |requestPath| == 0 || |c.prefix| == 0 then Crash
    else
      match StripRequestRouting(c.prefix, requestPath)
      case Err(_) => Crash
      case Ok(stripped) => ServeRaw(c, stripped, read)
  }

  /** The raw handler as evidently intended: a routing failure is refused
      with a 403. A path is refused iff it is misrouted or, after default-page
      substitution, ends with a restricted suffix. */
  function RawHandler(c: ServerConfig, requestPath: string, read: string -> Result<string, string>): (r: Reply)
    ensures r.Crash? <==> |requestPath| == 0 || |c.prefix| == 0
    ensures r.Forbidden? <==>
              && |requestPath| > 0 && |c.prefix| > 0
              && (|| StripRequestRouting(c.prefix, requestPath).Err?
                  || FirstRestrictedSuffix(DefaultIfRoot(StripRequestRouting(c.prefix, requestPath).value, c.defaultPage),
                                           c.restricted).Some?)
    ensures r.Serve? ==>
              && |requestPath| > 0 && |c.prefix| > 0 && StripRequestRouting(c.prefix, requestPath).Ok?
              && var p := DefaultIfRoot(StripRequestRouting(c.prefix, requestPath).value, c.defaultPage);
                 && (forall i :: 0 <= i < |c.restricted| ==> !HasSuffix(p, c.restricted[i]))
                 && read(c.path + p) == Ok(r.file)
    ensures r.NotFound? ==>
              && |requestPath| > 0 && |c.prefix| > 0 && StripRequestRouting(c.prefix, requestPath).Ok?
              && read(c.path + DefaultIfRoot(StripRequestRouting(c.prefix, requestPath).value, c.defaultPage))
                   == Err(r.message)
    ensures r.Forbidden? ==> r.message == NotAllowed
    ensures !r.Render?
  {
    if |requestPath| == 0 || |c.prefix| == 0 then Crash
    else
      match StripRequestRouting(c.prefix, requestPath)
      case Err(_) => Forbidden(NotAllowed)
      case Ok(stripped) => ServeRaw(c, stripped, read)
  }

  /** The two raw handlers differ exactly on misrouted requests. */
  lemma RawHandlerRepairs(c: ServerConfig, requestPath: string, read: string -> Result<string, string>)
    requires |requestPath| > 0 && |c.prefix| > 0
    ensures StripRequestRouting(c.prefix, requestPath).Err? <==>
              RawHandlerAsWritten(c, requestPath, read) != RawHandler(c, requestPath, read)
    ensures StripRequestRouting(c.prefix, requestPath).Err? ==>
              RawHandlerAsWritten(c, requestPath, read) == Crash && RawHandler(c, requestPath, read) == Forbidden(NotAllowed)
  {
  }

  /** The markdown handler as written. A routing failure crashes it (it logs
      the path of the request it did not get back), so does a metadata line
      that makes the parser fail, and so does a page with a restricted
      topic, whose refusal reads the message of an error that is nil.
      `render` stands for the markdown-to-HTML rendering of the body. */
  function MarkdownHandlerAsWritten(c: ServerConfig, requestPath: string,
                                    read: string -> Result<string, string>, render: string -> string): (r: Reply)
    ensures r.Render? ==> |requestPath| > 0 && |c.prefix| > 0 && StripRequestRouting(c.prefix, requestPath).Ok?
    ensures |requestPath| == 0 || |c.prefix| == 0 ==> r == Crash
    ensures |requestPath| > 0 && |c.prefix| > 0 ==>
              var route := StripRequestRouting(c.prefix, requestPath);
              && (route.Err? ==> r == Crash)
              && (route.Ok? ==>
                    var contents := read(c.path + MarkdownPath(route.value, c.defaultPage));
                    && (contents.Err? ==> r == NotFound(contents.error))
                    && (contents.Ok? && !MetadataSafe(contents.value) ==> r == Crash)
                    && (contents.Ok? && MetadataSafe(contents.value) ==>
                          var page := LoadPage(EmptyPage, contents.value);
                          && (page.Err? ==> r == NotFound(LoadErrorMessage(page.error)))
                          && ((page.Ok? && exists i :: 0 <= i < |c.restricted| && c.restricted[i] in page.value.topics)
                              ==> r == Crash)
                          && ((page.Ok? && forall i :: 0 <= i < |c.restricted| ==> c.restricted[i] !in page.value.topics)
                              ==> r == Render(PrintKeywords(page.value), PrintTopics(page.value, c.topicPrefix),
                                              render(page.value.body)))))
  {
    if |requestPath| == 0 || |c.prefix| == 0 then Crash
    else
      match StripRequestRouting(c.prefix, requestPath)
      case Err(_) => Crash
      case Ok(stripped) =>
        match read(c.path + MarkdownPath(stripped, c.defaultPage))
        case Err(msg) => NotFound(msg)
        case Ok(contents) =>
          if !MetadataSafe(contents) then Crash
          else
            match LoadPage(EmptyPage, contents)
            case Err(e) => NotFound(LoadErrorMessage(e))
            case Ok(page) =>
              if MatchedTag(page, c.restricted) then Crash
              else Render(PrintKeywords(page), PrintTopics(page, c.topicPrefix), render(page.body))
  }

  /** The markdown handler as evidently intended: routing failures and
      restricted pages are refused with a 403, like the handler's other
      refusals. */
  function MarkdownHandler(c: ServerConfig, requestPath: string,
                           read: string -> Result<string, string>, render: string -> string): (r: Reply)
    ensures r.Crash? ==> |requestPath| == 0 || |c.prefix| == 0
                         || (StripRequestRouting(c.prefix, requestPath).Ok?
                             && read(c.path + MarkdownPath(StripRequestRouting(c.prefix, requestPath).value, c.defaultPage)).Ok?
                             && !MetadataSafe(read(c.path + MarkdownPath(StripRequestRouting(c.prefix, requestPath).value, c.defaultPage)).value))
    ensures r.Render? ==>
              && |requestPath| > 0 && |c.prefix| > 0 && StripRequestRouting(c.prefix, requestPath).Ok?
              && var contents := read(c.path + MarkdownPath(StripRequestRouting(c.prefix, requestPath).value, c.defaultPage));
                 && contents.Ok? && MetadataSafe(contents.value) && LoadPage(EmptyPage, contents.value).Ok?
                 && forall i :: 0 <= i < |c.restricted| ==> c.restricted[i] !in LoadPage(EmptyPage, contents.value).value.topics
    ensures |requestPath| > 0 && |c.prefix| > 0 ==>
              var route := StripRequestRouting(c.prefix, requestPath);
              && (route.Err? ==> r == Forbidden(NotAllowed))
              && (route.Ok? ==>
                    var contents := read(c.path + MarkdownPath(route.value, c.defaultPage));
                    && (contents.Err? ==> r == NotFound(contents.error))
                    && (contents.Ok? && MetadataSafe(contents.value) ==>
                          var page := LoadPage(EmptyPage, contents.value);
                          && (page.Err? ==> r == NotFound(LoadErrorMessage(page.error)))
                          && (page.Ok? && (exists i :: 0 <= i < |c.restricted| && c.restricted[i] in page.value.topics) ==>
                                r == Forbidden(NotAllowed))
                          && (page.Ok? && (forall i :: 0 <= i < |c.restricted| ==> c.restricted[i] !in page.value.topics) ==>
                                r == Render(PrintKeywords(page.value), PrintTopics(page.value, c.topicPrefix),
                                            render(page.value.body)))))
  {
    if |requestPath| == 0 || |c.prefix| == 0 then Crash
    else
      match StripRequestRouting(c.prefix, requestPath)
      case Err(_) => Forbidden(NotAllowed)
      case Ok(stripped) =>
        match read(c.path + MarkdownPath(stripped, c.defaultPage))
        case Err(msg) => NotFound(msg)
        case Ok(contents) =>
          if !MetadataSafe(contents) then Crash
          else
            match LoadPage(EmptyPage, contents)
            case Err(e) => NotFound(LoadErrorMessage(e))
            case Ok(page) =>
              if MatchedTag(page, c.restricted) then Forbidden(NotAllowed)
              else Render(PrintKeywords(page), PrintTopics(page, c.topicPrefix), render(page.body))
  }

  /** The two versions differ exactly where the written one crashes on a
      routing failure or a restricted page; there the intended one refuses. */
  lemma MarkdownHandlerRepairs(c: ServerConfig, requestPath: string,
                               read: string -> Result<string, string>, render: string -> string)
    ensures var w := MarkdownHandlerAsWritten(c, requestPath, read, render);
            var f := MarkdownHandler(c, requestPath, read, render);
            && (w != f ==> w == Crash && f == Forbidden(NotAllowed))
            && (|requestPath| > 0 && |c.prefix| > 0 && StripRequestRouting(c.prefix, requestPath).Err? ==>
                  w == Crash && f == Forbidden(NotAllowed))
  {
  }

  /** A request outside the handler's route crashes the written handler. */
  lemma MarkdownRoutingCrash(c: ServerConfig, read: string -> Result<string, string>, render: string -> string)
    requires c.prefix == "/wiki/"
    ensures MarkdownHandlerAsWritten(c, "/other/page", read, render) == Crash
    ensures MarkdownHandler(c, "/other/page", read, render) == Forbidden(NotAllowed)
  {
    assert "/other/page"[..6] != "/wiki/" by { assert "/other/page"[1] != "/wiki/"[1]; }
  }

  /** A page that loads and carries a restricted topic crashes the written
      handler; the intended one refuses it. */
  lemma MarkdownRestrictedCrash(c: ServerConfig, requestPath: string,
                                read: string -> Result<string, string>, render: string -> string)
    requires |requestPath| > 0 && |c.prefix| > 0 && StripRequestRouting(c.prefix, requestPath).Ok?
    requires var contents := read(c.path + MarkdownPath(StripRequestRouting(c.prefix, requestPath).value, c.defaultPage));
             && contents.Ok? && MetadataSafe(contents.value)
             && LoadPage(EmptyPage, contents.value).Ok?
             && MatchedTag(LoadPage(EmptyPage, contents.value).value, c.restricted)
    ensures MarkdownHandlerAsWritten(c, requestPath, read, render) == Crash
    ensures MarkdownHandler(c, requestPath, read, render) == Forbidden(NotAllowed)
  {
  }

  /** A concrete request for a restricted page: `/wiki/page` under the route
      `/wiki/`, where the file holds the one-topic page and `x` is restricted.
      The written handler crashes; the intended one refuses. */
  lemma MarkdownRestrictedExample(c: ServerConfig, read: string -> Result<string, string>, render: string -> string)
    requires c.prefix == "/wiki/" && c.restricted == ["x"]
    requires read(c.path + "/page.md") == Ok(OneTopicPage)
    ensures MarkdownHandlerAsWritten(c, "/wiki/page", read, render) == Crash
    ensures MarkdownHandler(c, "/wiki/page", read, render) == Forbidden(NotAllowed)
  {
    StripMounted("/wiki/", "/page");
    assert "/wiki/"[..5] + "/page" == "/wiki/page";
    assert MarkdownPath("/page", c.defaultPage) == "/page.md" by {
      assert !HasSuffix("/page", ".md");
    }
    OneTopicPageLoads();
    assert MatchedTag(LoadPage(EmptyPage, OneTopicPage).value, c.restricted);
    MarkdownRestrictedCrash(c, "/wiki/page", read, render);
  }
}
