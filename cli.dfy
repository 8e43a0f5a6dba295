/** The string logic of fwget.py's `__main__` block: turning the configured
    token and repository URL into the index and content URLs, and picking
    a command from the first command-line argument. */
module Cli {
  import opened Text
  import opened Catalog
  import opened Query

  // ---------------------------------------------------------------------
  // URLs

  const Scheme: string := "http://"

  /** `url.replace('http://', '')`: one left-to-right pass that deletes each
      non-overlapping occurrence of the scheme. */
  function StripScheme(url: string): (r: string)
    ensures |r| <= |url|
    ensures (|url| - |r|) % |Scheme| == 0
    decreases |url|
  {
    if |url| == 0 then []
    else if Scheme <= url then StripScheme(url[|Scheme|..])
    else [url[0]] + StripScheme(url[1..])
  }

  /** A URL that does not mention the scheme comes back unchanged. */
  lemma {:induction false} StripSchemeNoScheme(url: string)
    requires !Contains(url, Scheme)
    ensures StripScheme(url) == url
    decreases |url|
  {
    if |url| > 0 {
      StripSchemeNoScheme(url[1..]);
      assert url == [url[0]] + url[1..];
    }
  }

  /** A leading scheme is dropped. */
  lemma StripSchemeLeading(rest: string)
    ensures StripScheme(Scheme + rest) == StripScheme(rest)
  {
    assert (Scheme + rest)[|Scheme|..] == rest;
  }

  /** The pass is not repeated: removing one occurrence can join two pieces
      into a new one, which stays in the result. With the scheme spliced
      into itself after `ht`, `hthttp://tp://` comes back as `http://`. */
  lemma StripSchemeSinglePass()
    ensures StripScheme(Scheme[..2] + Scheme + Scheme[2..]) == Scheme
  {
    var tail := Scheme[2..];
    StripSchemeShort(tail);
    StripSchemeLeading(tail);
    var u := [Scheme[1]] + (Scheme + tail);
    StripSchemeKeep(u, 0);
    assert u[1..] == Scheme + tail;
    var v := [Scheme[0]] + u;
    StripSchemeKeep(v, 2);
    assert v[1..] == u;
    assert Scheme[..2] == [Scheme[0]] + [Scheme[1]];
    assert Scheme[..2] + Scheme + Scheme[2..] == v;
    assert Scheme == Scheme[..2] + Scheme[2..];
  }

  /** An input that differs from the scheme at some position of its first
      seven characters keeps its first character. */
  lemma StripSchemeKeep(url: string, j: nat)
    requires j < |Scheme| && j < |url| && url[j] != Scheme[j]
    ensures StripScheme(url) == [url[0]] + StripScheme(url[1..])
  {
  }

  /** In general: everything before the leftmost occurrence is kept, that
      occurrence is removed, and the scan resumes right after it. */
  lemma {:induction false} StripSchemeFirst(url: string, i: nat)
    requires OccursAt(Scheme, url, i)
    requires forall j :: 0 <= j < i ==> !OccursAt(Scheme, url, j)
    ensures StripScheme(url) == url[..i] + StripScheme(url[i + |Scheme|..])
    decreases i
  {
    if i == 0 {
      assert Scheme <= url;
    } else {
      assert !OccursAt(Scheme, url, 0);
      assert !(Scheme <= url);
      var t := url[1..];
      OccursInTail(Scheme, url, i - 1);
      forall j | 0 <= j < i - 1 ensures !OccursAt(Scheme, t, j) {
        OccursInTail(Scheme, url, j);
      }
      StripSchemeFirst(t, i - 1);
      assert t[i - 1 + |Scheme|..] == url[i + |Scheme|..];
      assert [url[0]] + t[..i - 1] == url[..i];
      ConcatAssocText([url[0]], t[..i - 1], StripScheme(url[i + |Scheme|..]));
    }
  }

  /** Too short to hold the scheme: unchanged. */
  lemma {:induction false} StripSchemeShort(url: string)
    requires |url| < |Scheme|
    ensures StripScheme(url) == url
    decreases |url|
  {
    if |url| > 0 {
      StripSchemeShort(url[1..]);
      assert url == [url[0]] + url[1..];
    }
  }

  /** The content location: the scheme, then the token as user name with
      the password `null`, then the configured URL without its scheme. */
  function ContentUrl(token: string, url: string): string
  {
    Scheme + token + ":null@" + StripScheme(url)
  }

  /** The index location: built like the content location, with the fixed
      path of the repository's JSON index appended. */
  function IndexUrl(token: string, url: string): string
  {
    Scheme + token + ":null@" + StripScheme(url) + "/fwrepodata/fwrepo.json"
  }

  /** The index is fetched from a fixed path below the content location. */
  lemma IndexUrlBelowContentUrl(token: string, url: string)
    ensures IndexUrl(token, url) == ContentUrl(token, url) + "/fwrepodata/fwrepo.json"
  {
  }

  /** For a configured URL of the usual form `http://<host/path>`, the
      content URL puts the token as user name and `null` as password in
      front of `<host/path>`; the token itself is never rewritten. */
  lemma ContentUrlOfConfiguredUrl(token: string, hostPath: string)
    requires !Contains(hostPath, Scheme)
    ensures ContentUrl(token, Scheme + hostPath) == Scheme + token + ":null@" + hostPath
  {
    StripSchemeLeading(hostPath);
    StripSchemeNoScheme(hostPath);
  }

  // ---------------------------------------------------------------------
  // Command dispatch

  const UsageShort: string := "Usage:  fwget.py  < search | locate | download >   [ search term ]\n"
  const UsageSearch: string := "Usage:  fwget.py search [ search term ]"
  const UsageFull: string := "Usage:  fwget.py  < search | locate | download | list >   [ search term ]"

  /** What the `if`/`elif` chain on `arglist[1]` decides to do. */
  datatype Command =
    | Usage(message: string)     // print a usage line
    | RunSearch(term: string)
    | RunLocate(term: string)
    | RunDownload(file: string)
    | RunList
    | MissingTerm                // `arglist[2]` does not exist: IndexError

  /** `argv` is `sys.argv`, so `argv[0]` is the program name. */
  function Dispatch(argv: seq<string>): Command
  {
    if |argv| <= 1 then Usage(UsageShort)
    else if Contains(Lower(argv[1]), "search") then
      (if |argv| == 3 then RunSearch(argv[2]) else Usage(UsageSearch))
    else if Contains(Lower(argv[1]), "locate") then
      (if |argv| >= 3 then RunLocate(argv[2]) else MissingTerm)
    else if Contains(Lower(argv[1]), "download") then
      (if |argv| >= 3 then RunDownload(argv[2]) else MissingTerm)
    else if Contains(Lower(argv[1]), "list") then RunList
    else Usage(UsageFull)
  }

  /** The first of `search`, `locate`, `download`, `list` that occurs in
      the lower-cased first argument decides; `search` needs exactly one
      term, `locate` and `download` fail without one. */
  lemma DispatchFirstMatch(argv: seq<string>, t: string)
    ensures Dispatch(argv) == RunSearch(t) <==>
      |argv| == 3 && IsSubstring("search", Lower(argv[1])) && t == argv[2]
    ensures Dispatch(argv) == Usage(UsageSearch) <==>
      |argv| >= 2 && |argv| != 3 && IsSubstring("search", Lower(argv[1]))
    ensures Dispatch(argv) == RunLocate(t) <==>
      |argv| >= 3 && !IsSubstring("search", Lower(argv[1])) && IsSubstring("locate", Lower(argv[1]))
      && t == argv[2]
    ensures Dispatch(argv) == RunDownload(t) <==>
      |argv| >= 3 && !IsSubstring("search", Lower(argv[1])) && !IsSubstring("locate", Lower(argv[1]))
      && IsSubstring("download", Lower(argv[1])) && t == argv[2]
    ensures Dispatch(argv) == MissingTerm <==>
      |argv| == 2 && !IsSubstring("search", Lower(argv[1]))
      && (IsSubstring("locate", Lower(argv[1])) || IsSubstring("download", Lower(argv[1])))
    ensures Dispatch(argv) == RunList <==>
      |argv| >= 2 && !IsSubstring("search", Lower(argv[1])) && !IsSubstring("locate", Lower(argv[1]))
      && !IsSubstring("download", Lower(argv[1])) && IsSubstring("list", Lower(argv[1]))
    ensures Dispatch(argv) == Usage(UsageShort) <==> |argv| <= 1
    ensures Dispatch(argv) == Usage(UsageFull) <==>
      |argv| >= 2 && !IsSubstring("search", Lower(argv[1])) && !IsSubstring("locate", Lower(argv[1]))
      && !IsSubstring("download", Lower(argv[1])) && !IsSubstring("list", Lower(argv[1]))
  {
    if |argv| >= 2 {
      ContainsIff(Lower(argv[1]), "search");
      ContainsIff(Lower(argv[1]), "locate");
      ContainsIff(Lower(argv[1]), "download");
      ContainsIff(Lower(argv[1]), "list");
    }
  }

  /** The command word is matched without regard to case. */
  lemma DispatchCaseInsensitive(argv: seq<string>, word: string)
    requires |argv| >= 2
    ensures Dispatch(argv[1 := Lower(word)]) == Dispatch(argv[1 := word])
  {
    LowerIdempotent(word);
  }

  /** Arguments after the term are ignored, except that `search` then
      prints its usage line instead of searching. */
  lemma DispatchExtraArguments(argv: seq<string>, extra: seq<string>)
    requires |argv| >= 3 && |extra| > 0
    ensures Dispatch(argv + extra) ==
      if Dispatch(argv).RunSearch? then Usage(UsageSearch) else Dispatch(argv)
  {
    assert (argv + extra)[1] == argv[1] && (argv + extra)[2] == argv[2];
  }

  // ---------------------------------------------------------------------
  // Running the chosen command

  /** What one run of the program does once the index is loaded. */
  datatype Outcome =
    | Printed(lines: seq<string>)          // lines written to standard output
    | Fetch(shown: string, url: string)    // `download`: prints `shown`, then fetches `url`
    | IndexError                           // the run stops with an uncaught exception

  /** The dispatch chain of the `__main__` block, run against a loaded
      index with the configured token and repository URL. */
  method Execute(argv: seq<string>, jsonIndex: Index, token: string, url: string)
    returns (out: Outcome)
    ensures Dispatch(argv).Usage? ==> out == Printed([Dispatch(argv).message])
    ensures Dispatch(argv).RunSearch? ==> out == Printed(SearchOutput(argv[2], jsonIndex))
    ensures Dispatch(argv).RunLocate? ==>
      out == Printed(LocateOutput(argv[2], jsonIndex, ContentUrl(token, url)))
    ensures Dispatch(argv).RunDownload? ==>
      out == Fetch("./" + argv[2], ContentUrl(token, url) + "/" + argv[2])
    ensures Dispatch(argv).RunList? ==> out == Printed(ListOutput(jsonIndex))
    ensures Dispatch(argv) == MissingTerm <==> out == IndexError
  {
    var contentUrl := ContentUrl(token, url);
    var argcount := |argv|;
    if argcount <= 1 {
      out := Printed([UsageShort]);
    } else if Contains(Lower(argv[1]), "search") {
      if argcount == 3 {
        var rows, lines := Search(argv[2], jsonIndex);
        out := Printed(lines);
      } else {
        out := Printed([UsageSearch]);
      }
    } else if Contains(Lower(argv[1]), "locate") {
      if argcount < 3 {
        out := IndexError;
      } else {
        var rows, lines := Locate(argv[2], jsonIndex, contentUrl);
        out := Printed(lines);
      }
    } else if Contains(Lower(argv[1]), "download") {
      if argcount < 3 {
        out := IndexError;
      } else {
        out := Fetch("./" + argv[2], contentUrl + "/" + argv[2]);
      }
    } else if Contains(Lower(argv[1]), "list") {
      var rows, lines := List(jsonIndex);
      out := Printed(lines);
    } else {
      out := Printed([UsageFull]);
    }
  }
}
