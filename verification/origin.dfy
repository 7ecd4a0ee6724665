/** Extraction of the bare host name from a remote URL, as `GetRepoOrigin` does after reading it. */
module Origin {
  import opened Strings

  /** The URL forms recognised, tested in this order. */
  datatype Scheme = Https | Http | SshGit | NoScheme

  function SchemePrefix(sch: Scheme): string {
    match sch
    case Https => "https://"
    case Http => "http://"
    case SshGit => "git@"
    case NoScheme => ""
  }

  /** Which prefix is stripped: the first of `https://`, `http://`, `git@` that the URL starts with. */
  function SchemeOf(url: string): (sch: Scheme)
    ensures SchemePrefix(sch) <= url
    ensures sch == NoScheme <==> !("https://" <= url) && !("http://" <= url) && !("git@" <= url)
    ensures sch == Http ==> !("https://" <= url)
    ensures sch == SshGit ==> !("https://" <= url) && !("http://" <= url)
  {
    if "https://" <= url then Https
    else if "http://" <= url then Http
    else if "git@" <= url then SshGit
    else NoScheme
  }

  /**
   The host part of an already trimmed URL: the scheme is stripped, an SSH-style
   `git@host:path` is cut at its first ':', then everything from the first '/' is dropped.
   */
  function ExtractHost(url: string): (host: string)
    ensures '/' !in host
    ensures SchemeOf(url) == SshGit ==> ':' !in host
    ensures SchemePrefix(SchemeOf(url)) + host <= url
    ensures var rest := url[|SchemePrefix(SchemeOf(url))|..];
      host == rest || rest[|host|] == '/' || (SchemeOf(url) == SshGit && rest[|host|] == ':')
  {
    var sch := SchemeOf(url);
    var rest := url[|SchemePrefix(sch)|..];
    var beforeColon := if sch == SshGit then CutAt(rest, ':') else rest;
    var host := CutAt(beforeColon, '/');
    assert host <= rest;
    assert url == SchemePrefix(sch) + rest;
    host
  }

  /** The value `GetRepoOrigin` returns for the raw output of the origin-URL query. */
  function Hostname(output: string): (r: string)
    ensures '/' !in r
    ensures |r| <= |output|
  {
    ExtractHost(TrimSpace(output))
  }

  /** An output line whose URL has no surrounding white space yields the host of that URL. */
  lemma HostnameOfLine(url: string)
    requires url == [] || (!IsSpace(url[0]) && !IsSpace(url[|url| - 1]))
    ensures Hostname(url + "\n") == ExtractHost(url)
  {
    TrimSpaceAppendSpace(url, '\n');
    TrimSpaceOfTrimmed(url);
  }

  /** `https://host/path` yields `host`. */
  lemma HttpsForm(host: string, path: string)
    requires '/' !in host
    ensures ExtractHost("https://" + host + "/" + path) == host
  {
    var url := "https://" + host + "/" + path;
    assert url[..8] == "https://";
    var rest := url[8..];
    assert rest == host + "/" + path && rest[..|host|] == host;
    CutAtFirst(rest, '/', |host|);
  }

  /** `http://host/path` yields `host`. */
  lemma HttpForm(host: string, path: string)
    requires '/' !in host
    ensures ExtractHost("http://" + host + "/" + path) == host
  {
    var url := "http://" + host + "/" + path;
    assert url[..7] == "http://";
    assert url[4] != "https://"[4];
    var rest := url[7..];
    assert rest == host + "/" + path && rest[..|host|] == host;
    CutAtFirst(rest, '/', |host|);
  }

  /** `git@host:path` yields `host`, even though the path contains '/'. */
  lemma SshForm(host: string, path: string)
    requires ':' !in host && '/' !in host
    ensures ExtractHost("git@" + host + ":" + path) == host
  {
    var url := "git@" + host + ":" + path;
    assert url[..4] == "git@" && url[0] == 'g';
    var rest := url[4..];
    assert rest == host + ":" + path && rest[..|host|] == host;
    CutAtFirst(rest, ':', |host|);
    CutAtAbsent(host, '/');
  }

  lemma HttpsExample(url: string)
    requires url == "https://example.com/repo.git"
    ensures ExtractHost(url) == "example.com"
  {
    assert url == "https://" + "example.com" + "/" + "repo.git";
    HttpsForm("example.com", "repo.git");
  }

  /** The origin URL of the repository tests, read as a line of output, yields the bare host. */
  lemma RepositoryTestExample(url: string, output: string)
    requires url == "https://example.com/repo.git" && output == url + "\n"
    ensures Hostname(output) == "example.com"
  {
    assert url[0] == 'h' && url[|url| - 1] == 't';
    HostnameOfLine(url);
    HttpsExample(url);
  }

  lemma SshExample(url: string)
    requires url == "git@gitlab.com:u/r.git"
    ensures ExtractHost(url) == "gitlab.com"
  {
    assert url == "git@" + "gitlab.com" + ":" + "u/r.git";
    SshForm("gitlab.com", "u/r.git");
  }

  lemma HttpExample(url: string)
    requires url == "http://x.org/a/b"
    ensures ExtractHost(url) == "x.org"
  {
    assert url == "http://" + "x.org" + "/" + "a/b";
    HttpForm("x.org", "a/b");
  }
}
