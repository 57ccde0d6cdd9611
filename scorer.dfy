/** `AICodeScorer.run`: check the locator, clone the repository from the
    mirror, summarise it, ask the model, clean its reply and parse it. The
    clone, the model and `json.loads` are parameters of the model: `clone`
    gives the repository found at a URL, `evaluate` the model's reply (None when
    the request fails) and `parse` the decoded value (None when the text is not
    JSON). `clone` gives None when the checkout has no history for `git log`
    to read, which is how a failed clone surfaces. A run that raises is a None
    result. */
module Scorer {
  import opened Wrappers
  import opened RepoSummary
  import opened Locator
  import opened Reply
  import opened JsonValues

  /** The sample indices the run draws must fit the repository it clones. */
  predicate PicksFit(url: string, clone: string -> Option<Repository>, picks: seq<nat>)
  {
    IsValidGithubRepo(url) && clone(CloneUrl(url)).Some? ==>
      IsSampleIndices(picks, |SourceFiles(clone(CloneUrl(url)).value.files)|)
  }

  method Run(url: string, prompt: string, clone: string -> Option<Repository>, picks: seq<nat>,
             evaluate: string -> Option<string>, parse: string -> Option<Json>)
    returns (results: Option<Json>)
    requires PicksFit(url, clone, picks)
    ensures !IsValidGithubRepo(url) ==> results == None
    ensures IsValidGithubRepo(url) && clone(MirrorPrefix + url[|GithubPrefix|..]).None? ==> results == None
    ensures IsValidGithubRepo(url) && clone(MirrorPrefix + url[|GithubPrefix|..]).Some? ==>
      var repo := clone(MirrorPrefix + url[|GithubPrefix|..]).value;
      IsSampleIndices(picks, |SourceFiles(repo.files)|)
      && results == match evaluate(prompt + "\n" + SummaryText(repo, picks))
                    case None => None
                    case Some(reply) => parse(CleanReply(reply))
  {
    if !IsValidGithubRepo(url) {
      return None;
    }
    var fastUrl := CloneUrl(url);
    CloneUrlOfAccepted(url);
    var checkout := clone(fastUrl);
    if checkout.None? {
      return None;
    }
    var repo := checkout.value;
    var summary := GenerateRepoSummary(repo, picks);
    var input := prompt + "\n" + summary;
    var reply := evaluate(input);
    match reply {
      case None =>
        results := None;
      case Some(text) =>
        results := parse(CleanReply(text));
    }
  }
}
