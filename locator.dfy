/** The repository locator: the GitHub URL check, written as a recogniser for
    the source's regular expression `^https://github\.com/([a-zA-Z0-9_-]+)/([a-zA-Z0-9_-]+)(\.git)?$`
    under `re.match`, and the rewrite of the URL to the clone mirror. */
module Locator {
  import opened Strings

  const GithubPrefix: string := "https://github.com/"
  const MirrorPrefix: string := "https://gitclone.com/github.com/"

  /** The character class `[a-zA-Z0-9_-]`. */
  predicate IsNameChar(c: char)
  {
    ('a' <= c <= 'z') || ('A' <= c <= 'Z') || ('0' <= c <= '9') || c == '_' || c == '-'
  }

  /** One or more characters of the class. */
  predicate IsName(s: string)
  {
    |s| > 0 && forall i :: 0 <= i < |s| ==> IsNameChar(s[i])
  }

  /** What may follow the repository name: the optional ".git", then the end of
      the text or, since Python's `$` also matches there, a single final newline. */
  predicate IsValidTail(t: string)
  {
    t == "" || t == "\n" || t == ".git" || t == ".git\n"
  }

  /** The length of the longest run of class characters at the start of `s`. */
  function NameSpan(s: string): (n: nat)
    ensures n <= |s|
    ensures forall i :: 0 <= i < n ==> IsNameChar(s[i])
    ensures n < |s| ==> !IsNameChar(s[n])
    decreases |s|
  {
    if s != [] && IsNameChar(s[0]) then 1 + NameSpan(s[1..]) else 0
  }

  /** The regular expression, matched greedily: '/', '.' and '\n' are outside the
      class, so the greedy split of owner and name is the only one possible. */
  predicate IsValidGithubRepo(url: string)
  {
    |GithubPrefix| <= |url| && url[..|GithubPrefix|] == GithubPrefix
    && var rest := url[|GithubPrefix|..];
    var o := NameSpan(rest);
    0 < o < |rest| && rest[o] == '/'
    && var n := NameSpan(rest[o + 1..]);
    0 < n && IsValidTail(rest[o + 1..][n..])
  }

  function Owner(url: string): string
    requires IsValidGithubRepo(url)
  {
    var rest := url[|GithubPrefix|..];
    rest[..NameSpan(rest)]
  }

  function Name(url: string): string
    requires IsValidGithubRepo(url)
  {
    var rest := url[|GithubPrefix|..];
    var after := rest[NameSpan(rest) + 1..];
    after[..NameSpan(after)]
  }

  function Tail(url: string): string
    requires IsValidGithubRepo(url)
  {
    var rest := url[|GithubPrefix|..];
    var after := rest[NameSpan(rest) + 1..];
    after[NameSpan(after)..]
  }

  /** The part after the prefix of an accepted URL: owner, '/', name, tail. */
  lemma AcceptedRest(url: string)
    requires IsValidGithubRepo(url)
    ensures url == GithubPrefix + url[|GithubPrefix|..]
    ensures url[|GithubPrefix|..] == Owner(url) + "/" + Name(url) + Tail(url)
  {
    var rest := url[|GithubPrefix|..];
    var o := NameSpan(rest);
    var after := rest[o + 1..];
    var n := NameSpan(after);
    assert after == after[..n] + after[n..];
    assert rest == rest[..o] + [rest[o]] + after;
    assert url == url[..|GithubPrefix|] + rest;
  }

  /** Every accepted URL is the prefix, an owner, '/', a name and an allowed tail. */
  lemma AcceptedUrlShape(url: string)
    requires IsValidGithubRepo(url)
    ensures url == GithubPrefix + Owner(url) + "/" + Name(url) + Tail(url)
    ensures IsName(Owner(url)) && IsName(Name(url)) && IsValidTail(Tail(url))
  {
    AcceptedRest(url);
    assert url == GithubPrefix + (Owner(url) + "/" + Name(url) + Tail(url));
  }

  /** The run of class characters in front of a character outside the class. */
  lemma {:induction false} NameSpanOfName(name: string, rest: string)
    requires forall i :: 0 <= i < |name| ==> IsNameChar(name[i])
    requires rest == [] || !IsNameChar(rest[0])
    ensures NameSpan(name + rest) == |name|
    decreases |name|
  {
    if name == [] {
      assert name + rest == rest;
    } else {
      assert (name + rest)[1..] == name[1..] + rest;
      NameSpanOfName(name[1..], rest);
    }
  }

  /** Every URL of that shape is accepted, and its parts are recovered. */
  lemma ShapedUrlAccepted(owner: string, name: string, tail: string)
    requires IsName(owner) && IsName(name) && IsValidTail(tail)
    ensures var url := GithubPrefix + owner + "/" + name + tail;
      IsValidGithubRepo(url) && Owner(url) == owner && Name(url) == name && Tail(url) == tail
  {
    var url := GithubPrefix + owner + "/" + name + tail;
    var after := name + tail;
    var rest := owner + ([ '/' ] + after);
    PrefixSplit(GithubPrefix, owner, name, tail);
    NameSpanOfName(owner, ['/'] + after);
    SlashSplit(owner, after);
    assert tail == [] || tail[0] == '.' || tail[0] == '\n';
    NameSpanOfName(name, tail);
    assert after[..|name|] == name && after[|name|..] == tail;
  }

  lemma PrefixSplit(p: string, owner: string, name: string, tail: string)
    ensures var url := p + owner + "/" + name + tail;
      url[..|p|] == p && url[|p|..] == owner + (['/'] + (name + tail))
  {
    var url := p + owner + "/" + name + tail;
    assert url == p + (owner + (['/'] + (name + tail)));
  }

  lemma SlashSplit(owner: string, after: string)
    ensures (owner + (['/'] + after))[|owner|] == '/'
    ensures (owner + (['/'] + after))[|owner| + 1..] == after
  {
  }

  /** An owner and a name followed by a tail that starts outside the class but
      is not an allowed tail: the greedy split leaves no other choice, so the
      URL is rejected. */
  lemma ShapedUrlRejected(owner: string, name: string, tail: string)
    requires IsName(owner) && IsName(name)
    requires tail != [] && !IsNameChar(tail[0]) && !IsValidTail(tail)
    ensures !IsValidGithubRepo(GithubPrefix + owner + "/" + name + tail)
  {
    var after := name + tail;
    PrefixSplit(GithubPrefix, owner, name, tail);
    NameSpanOfName(owner, ['/'] + after);
    SlashSplit(owner, after);
    NameSpanOfName(name, tail);
    assert after[|name|..] == tail;
  }

  /** The plain form, the ".git" form and the trailing newline that `$` lets
      through, for the repository `vra/flopth`. */
  lemma PlainUrlAccepted()
    ensures IsValidGithubRepo(GithubPrefix + "vra/flopth")
  {
    ExampleNames();
    ShapedUrlAccepted("vra", "flopth", "");
    assert GithubPrefix + "vra" + "/" + "flopth" + "" == GithubPrefix + "vra/flopth";
  }

  lemma GitSuffixAccepted()
    ensures IsValidGithubRepo(GithubPrefix + "vra/flopth.git")
  {
    ExampleNames();
    ShapedUrlAccepted("vra", "flopth", ".git");
    assert GithubPrefix + "vra" + "/" + "flopth" + ".git" == GithubPrefix + "vra/flopth.git";
  }

  lemma TrailingNewlineAccepted()
    ensures IsValidGithubRepo(GithubPrefix + "vra/flopth\n")
  {
    ExampleNames();
    ShapedUrlAccepted("vra", "flopth", "\n");
    assert GithubPrefix + "vra" + "/" + "flopth" + "\n" == GithubPrefix + "vra/flopth\n";
  }

  /** A trailing slash is not an allowed tail. */
  lemma TrailingSlashRejected()
    ensures !IsValidGithubRepo(GithubPrefix + "vra/flopth/")
  {
    ExampleNames();
    ShapedUrlRejected("vra", "flopth", "/");
    assert GithubPrefix + "vra" + "/" + "flopth" + "/" == GithubPrefix + "vra/flopth/";
  }

  lemma ExampleNames()
    ensures IsName("vra") && IsName("flopth")
  {
  }

  /** A URL naming only an owner lacks the '/' and the repository name. */
  lemma OwnerOnlyRejected()
    ensures !IsValidGithubRepo("https://github.com/vra")
  {
    var url := "https://github.com/vra";
    assert url[..|GithubPrefix|] == GithubPrefix;
    var rest := url[|GithubPrefix|..];
    assert rest == "vra" + "";
    NameSpanOfName("vra", "");
  }

  /** Only the https scheme is accepted. */
  lemma PlainHttpRejected()
    ensures !IsValidGithubRepo("http://github.com/vra/flopth")
  {
    var url := "http://github.com/vra/flopth";
    assert url[..|GithubPrefix|][4] == ':' != GithubPrefix[4];
  }

  /** No character of a name, and none of an allowed tail, is a colon. */
  lemma NoColonInParts(s: string, tail: string)
    requires IsName(s) && IsValidTail(tail)
    ensures ':' !in s && ':' !in tail
  {
  }

  /** `url.replace(GithubPrefix, MirrorPrefix)`: every occurrence is rewritten. */
  function CloneUrl(url: string): string
  {
    ReplaceAll(url, GithubPrefix, MirrorPrefix)
  }

  /** For an accepted URL the rewrite touches the prefix only: the mirror is
      asked for the same owner, name and tail. */
  lemma CloneUrlOfAccepted(url: string)
    requires IsValidGithubRepo(url)
    ensures CloneUrl(url) == MirrorPrefix + url[|GithubPrefix|..]
    ensures CloneUrl(url) == MirrorPrefix + Owner(url) + "/" + Name(url) + Tail(url)
  {
    var rest := url[|GithubPrefix|..];
    AcceptedRest(url);
    ColonFree(url);
    ReplaceLeadingOnly(GithubPrefix, rest, MirrorPrefix, ':');
    assert MirrorPrefix + rest == MirrorPrefix + Owner(url) + "/" + Name(url) + Tail(url);
  }

  lemma ColonFree(url: string)
    requires IsValidGithubRepo(url)
    ensures ':' !in url[|GithubPrefix|..]
    ensures ':' in GithubPrefix
  {
    AcceptedUrlShape(url);
    AcceptedRest(url);
    var o, n, t := Owner(url), Name(url), Tail(url);
    NoColonInParts(o, t);
    NoColonInParts(n, t);
    assert GithubPrefix[5] == ':';
  }
}
