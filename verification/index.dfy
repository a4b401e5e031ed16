/**
 * The index-side helpers of index.go that do not touch the search engine:
 * mapping a file path to the URI a page is served under, and building the
 * record indexed for a page. Reading the file, rendering its markdown to
 * plain text and its modification time come in as parameters.
 */
module Index {
  import opened Wrappers
  import opened Text
  import opened Order
  import opened Metadata

  /** `getURIPath`: replace the file-system prefix of a path by the URI
      prefix; a path outside the file-system prefix keeps all its bytes. */
  function GetURIPath(filePath: string, filePrefix: string, uriPrefix: string): (r: string)
    ensures HasPrefix(r, uriPrefix)
    ensures HasPrefix(filePath, filePrefix) ==> filePrefix + r[|uriPrefix|..] == filePath
    ensures !HasPrefix(filePath, filePrefix) ==> r[|uriPrefix|..] == filePath
  {
    uriPrefix + TrimPrefix(filePath, filePrefix)
  }

  /** Mapping a file under the file-system prefix and mapping back are
      inverse: putting the file prefix in front of the path below the URI
      prefix recovers the file, and every path below the file prefix is hit. */
  lemma GetURIPathInverse(rest: string, filePrefix: string, uriPrefix: string)
    ensures GetURIPath(filePrefix + rest, filePrefix, uriPrefix) == uriPrefix + rest
  {
    assert (filePrefix + rest)[..|filePrefix|] == filePrefix;
    assert (filePrefix + rest)[|filePrefix|..] == rest;
  }

  /** The cases of the `getURIPath` test. */
  lemma GetURIPathExamples()
    ensures GetURIPath("/wiki.md", "/", "/var/www/") == "/var/www/wiki.md"
    ensures GetURIPath("/wiki/page.md", "/wiki/", "/var/www/") == "/var/www/page.md"
    ensures GetURIPath("/wiki/page.md", "/wiki/", "/") == "/page.md"
    ensures GetURIPath("abcdef", "abc", "xyz") == "xyzdef"
  {
    assert GetURIPath("/wiki.md", "/", "/var/www/") == "/var/www/wiki.md" by {
      assert "/wiki.md" == "/" + "wiki.md";
      GetURIPathInverse("wiki.md", "/", "/var/www/");
    }
    assert GetURIPath("/wiki/page.md", "/wiki/", "/var/www/") == "/var/www/page.md" by {
      assert "/wiki/page.md" == "/wiki/" + "page.md";
      GetURIPathInverse("page.md", "/wiki/", "/var/www/");
    }
    assert GetURIPath("/wiki/page.md", "/wiki/", "/") == "/page.md" by {
      assert "/wiki/page.md" == "/wiki/" + "page.md";
      GetURIPathInverse("page.md", "/wiki/", "/");
    }
    assert GetURIPath("abcdef", "abc", "xyz") == "xyzdef" by {
      assert "abcdef" == "abc" + "def";
      GetURIPathInverse("def", "abc", "xyz");
    }
  }

  /** The record stored in the index for one page (`indexedPage`). Multi-value
      fields are joined with single spaces. `modified` is the file's
      modification time, opaque here. */
  datatype IndexedPage = IndexedPage(
    title: string,
    uriPath: string,
    body: string,
    topics: string,
    keywords: string,
    authors: string,
    modified: int)

  /** Why no record was built. */
  datatype WikiError =
    | LoadFailed(reason: LoadError)
    | Restricted(title: string)   // "Hit a restricted page - " + title

  /** The message of a restricted-page refusal. */
  function RestrictedMessage(title: string): (r: string)
    ensures HasPrefix(r, "Hit a restricted page - ") && HasSuffix(r, title)
  {
    "Hit a restricted page - " + title
  }

  /** The text of the error `generateWikiFromFile` returns: the loader's own
      message when the page could not be loaded, the refusal otherwise. */
  function ErrorText(e: WikiError): (r: string)
    ensures r != []
    ensures e.LoadFailed? ==> r == LoadErrorMessage(e.reason)
    ensures e.Restricted? ==> HasPrefix(r, "Hit a restricted page - ") && HasSuffix(r, e.title)
  {
    match e
    case LoadFailed(reason) => LoadErrorMessage(reason)
    case Restricted(title) => RestrictedMessage(title)
  }

  /** The authors of a page. The parser shown never records any, so the list
      is always empty. */
  const NoAuthors: seq<string> := []

  /** `generateWikiFromFile` over the file's bytes: load the page from an
      empty start, refuse it when one of its topics is restricted, otherwise
      build the record with the sorted topics and keywords joined by spaces.
      `cleanup` stands for the markdown-to-text rendering. */
  function GenerateWiki(file: string, uriPath: string, restricted: seq<string>,
                        cleanup: string -> string, modified: int): (r: Result<IndexedPage, WikiError>)
    requires MetadataSafe(file)
    ensures LoadPage(EmptyPage, file).Err? ==> r == Err(LoadFailed(LoadPage(EmptyPage, file).error))
    ensures LoadPage(EmptyPage, file).Ok? ==>
              (r.Err? <==> exists i :: 0 <= i < |restricted| && restricted[i] in LoadPage(EmptyPage, file).value.topics)
    ensures LoadPage(EmptyPage, file).Ok? && r.Err? ==>
              var title := LoadPage(EmptyPage, file).value.title;
              r.error == Restricted(title) && HasSuffix(ErrorText(r.error), title)
    ensures r.Ok? ==> var p := LoadPage(EmptyPage, file).value;
              && r.value.title == p.title && r.value.body == cleanup(p.body)
              && r.value.uriPath == uriPath && r.value.modified == modified && r.value.authors == ""
  {
    match LoadPage(EmptyPage, file)
    case Err(e) => Err(LoadFailed(e))
    case Ok(p) =>
      if MatchedTag(p, restricted) then Err(Restricted(p.title))
      else
        var lists := ListMeta(p);
        Ok(IndexedPage(p.title, uriPath, cleanup(p.body), Join(lists.0, " "), Join(lists.1, " "),
                       Join(NoAuthors, " "), modified))
  }

  /** The joined topic and keyword fields of a record split back, at the
      spaces, into the sorted lists of the loaded page, as long as the page
      had some; an empty list joins to "" and comes back as one empty piece. */
  lemma GenerateWikiSplits(file: string, uriPath: string, restricted: seq<string>,
                           cleanup: string -> string, modified: int)
    requires MetadataSafe(file)
    ensures var r := GenerateWiki(file, uriPath, restricted, cleanup, modified);
            r.Ok? ==>
              var p := LoadPage(EmptyPage, file).value;
              && (p.topics != {} ==> Split(r.value.topics, ' ') == ListMeta(p).0)
              && (p.topics == {} ==> Split(r.value.topics, ' ') == [""])
              && (p.keywords != {} ==> Split(r.value.keywords, ' ') == ListMeta(p).1)
              && (p.keywords == {} ==> Split(r.value.keywords, ' ') == [""])
  {
    var r := GenerateWiki(file, uriPath, restricted, cleanup, modified);
    if r.Ok? {
      var p := LoadPage(EmptyPage, file).value;
      LoadPageSpaceFree(EmptyPage, file);
      var lists := ListMeta(p);
      if p.topics != {} {
        assert forall i :: 0 <= i < |lists.0| ==> lists.0[i] in p.topics;
        SplitJoin(lists.0, ' ');
      }
      if p.keywords != {} {
        assert forall i :: 0 <= i < |lists.1| ==> lists.1[i] in p.keywords;
        SplitJoin(lists.1, ' ');
      }
    }
  }
}
