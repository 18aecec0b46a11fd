/** isAbsoulteUrl of src/fileutils.js: a URL is absolute when it starts with a known scheme. */
module Url {
  import opened Wrappers

  /** The schemes isAbsoulteUrl tries, in order. */
  const GeneralUriSchemes: seq<string> := ["http://", "https://", "file://"]

  /** generalUriSchemes.find(item => url.startsWith(item)): the first scheme `url` starts with. */
  function FindScheme(schemes: seq<string>, url: string): (found: Option<string>)
    ensures found.Some? ==> found.value in schemes && found.value <= url
    ensures found.Some? ==> exists i :: 0 <= i < |schemes| && schemes[i] == found.value
                                        && forall j :: 0 <= j < i ==> !(schemes[j] <= url)
    ensures found.None? <==> forall i :: 0 <= i < |schemes| ==> !(schemes[i] <= url)
  {
    if schemes == [] then None
    else if schemes[0] <= url then Some(schemes[0])
    else
      var found := FindScheme(schemes[1..], url);
      assert forall i :: 1 <= i < |schemes| ==> schemes[i] == schemes[1..][i - 1];
      found
  }

  /**
   * isAbsoulteUrl (the source's spelling): true exactly when `url` starts
   * with "http://", "https://" or "file://".
   */
  function IsAbsoluteUrl(url: string): (absolute: bool)
    ensures absolute <==> "http://" <= url || "https://" <= url || "file://" <= url
  {
    var schemes := GeneralUriSchemes;
    assert schemes[0] == "http://" && schemes[1] == "https://" && schemes[2] == "file://";
    FindScheme(schemes, url).Some?
  }

  /**
   * No scheme in the list is a prefix of a URL that starts with another, so
   * the scheme the search finds is the one the URL starts with.
   */
  lemma SchemeFoundAsItself(i: int, url: string)
    requires 0 <= i < |GeneralUriSchemes| && GeneralUriSchemes[i] <= url
    ensures FindScheme(GeneralUriSchemes, url) == Some(GeneralUriSchemes[i])
  {
    var schemes := GeneralUriSchemes;
    assert schemes[0] == "http://" && schemes[1] == "https://" && schemes[2] == "file://";
    if i == 1 {
      assert url[4] == 's';
    } else if i == 2 {
      assert url[0] == 'f';
    }
  }

  /** Appending to an absolute URL keeps it absolute. */
  lemma AbsoluteUrlExtends(url: string, rest: string)
    requires IsAbsoluteUrl(url)
    ensures IsAbsoluteUrl(url + rest)
  {
    assert url <= url + rest;
  }

  /** A URL made of one of the schemes and anything after it is absolute. */
  lemma SchemeMakesAbsolute(scheme: string, rest: string)
    requires scheme in GeneralUriSchemes
    ensures IsAbsoluteUrl(scheme + rest)
  {
    assert scheme <= scheme + rest;
  }

  /** A URL whose first character is neither 'h' nor 'f' is not absolute. */
  lemma FirstCharRulesOut(url: string)
    requires url != [] && url[0] != 'h' && url[0] != 'f'
    ensures !IsAbsoluteUrl(url)
  {
    assert "http://"[0] == 'h' && "https://"[0] == 'h' && "file://"[0] == 'f';
  }

  /** The cases the repository's test file checks, one lemma each. */
  lemma HttpUrlIsAbsolute()
    ensures IsAbsoluteUrl("http://some.domain/path/to/page")
  {
    assert "http://" <= "http://some.domain/path/to/page";
  }

  lemma HttpsUrlIsAbsolute()
    ensures IsAbsoluteUrl("https://some.domain/path/to/page")
  {
    assert "https://" <= "https://some.domain/path/to/page";
  }

  lemma FileUrlIsAbsolute()
    ensures IsAbsoluteUrl("file:///path/to/file")
  {
    assert "file://" <= "file:///path/to/file";
  }

  lemma HostPathIsRelative()
    ensures !IsAbsoluteUrl("some.domain/path/to/page")
  {
    FirstCharRulesOut("some.domain/path/to/page");
  }

  lemma RootedPathIsRelative()
    ensures !IsAbsoluteUrl("/path/to/page")
  {
    FirstCharRulesOut("/path/to/page");
  }
}
