/** The decision logic of the Mercurial helpers: the revset that tests ancestry and how
    its output is read, the choice offered when the working copy is not on the
    default branch, splitting `hg log`'s `"hash num"` output, and the repository name
    taken from the `default` path. The output of every `hg` run, the operator's answer
    and the configured path are parameters. */
module HgHelpers {
  import opened Text
  import History

  // ---------------------------------------------------------------------------
  // exists_and_is_ancestor

  const AncestryInfix := " and ancestor("

  /** The revset `revA and ancestor(revA,revB)`: `revA` itself when it is the greatest
      common ancestor of the two, otherwise empty. */
  function AncestryQuery(revA: string, revB: string): string
  {
    revA + AncestryInfix + revA + "," + revB + ")"
  }

  /** Reads the two revisions back out of an ancestry query: the first ends at the
      first space. */
  function ParseAncestryQuery(q: string): (r: Option<(string, string)>)
    ensures r.Some? ==> ' ' !in r.value.0 && AncestryQuery(r.value.0, r.value.1) == q
  {
    match IndexOfChar(q, ' ')
    case None => None
    case Some(k) =>
      var start := 2 * k + |AncestryInfix| + 1;
      if start < |q| then
        var a := q[..k];
        var b := q[start..|q| - 1];
        if AncestryQuery(a, b) == q then Some((a, b)) else None
      else
        None
  }

  /** Parsing inverts `AncestryQuery` whenever the first revision has no space, which
      holds for every hash and every local revision number. */
  lemma AncestryQueryRoundTrip(revA: string, revB: string)
    requires ' ' !in revA
    ensures ParseAncestryQuery(AncestryQuery(revA, revB)) == Some((revA, revB))
  {
    var q := AncestryQuery(revA, revB);
    var rest := AncestryInfix + revA + "," + revB + ")";
    assert q == revA + rest;
    IndexOfCharAfter(revA, rest, ' ');
    var start := 2 * |revA| + |AncestryInfix| + 1;
    assert q[..|revA|] == revA;
    assert q[start..|q| - 1] == revB;
  }

  /** The pieces of the query, in order: `revA`, the infix, `revA` again, a comma,
      `revB` and the closing parenthesis. */
  lemma AncestryQueryLayout(revA: string, revB: string)
    ensures var q := AncestryQuery(revA, revB);
            var second := |revA| + |AncestryInfix|;
            var bAt := second + |revA| + 1;
            |q| == bAt + |revB| + 1 &&
            OccursAt(q, revA, 0) && OccursAt(q, AncestryInfix, |revA|) &&
            OccursAt(q, revA, second) && q[second + |revA|] == ',' &&
            OccursAt(q, revB, bAt) && q[|q| - 1] == ')'
  {
    var q := AncestryQuery(revA, revB);
    var second := |revA| + |AncestryInfix|;
    var bAt := second + |revA| + 1;
    assert q[0..|revA|] == revA;
    assert q[|revA|..second] == AncestryInfix;
    assert q[second..second + |revA|] == revA;
    assert q[bAt..bAt + |revB|] == revB;
  }

  /** What Mercurial prints, on the merged output, for a revision it does not know. */
  const UnknownRevisionMessage := "abort: unknown revision"

  /** `exists_and_is_ancestor` applied to the output of the query: there is output and
      it does not hold the unknown-revision message. */
  function ExistsAndIsAncestor(out: string): (b: bool)
    ensures b <==> out != "" && !Contains(out, UnknownRevisionMessage)
  {
    out != "" && Find(out, UnknownRevisionMessage) < 0
  }

  // ---------------------------------------------------------------------------
  // The query evaluated on an abstract history

  /** What `hg log -r <query> --template={node|short}` reports. */
  datatype QueryOutcome =
    | UnknownRevision(rev: string)  // the command aborts
    | Listed(nodes: seq<string>)    // the short hashes of the matching changesets

  /** The first twelve hex digits of a node hash (`{node|short}`). */
  function ShortNode(node: string): string
  {
    if |node| <= 12 then node else node[..12]
  }

  /** The text the command writes: the abort message, or the listed short hashes with
      nothing in between. */
  function Render(r: QueryOutcome): string
  {
    match r
    case UnknownRevision(rev) => UnknownRevisionMessage + " '" + rev + "'!\n"
    case Listed(nodes) => Join("", nodes)
  }

  /** `gca` is an answer `ancestor(a, b)` may give: one greatest common ancestor when
      there is a common ancestor, none otherwise. */
  ghost predicate AncestorAnswer(repo: History.Repo, a: nat, b: nat, gca: Option<nat>)
  {
    match gca
    case Some(c) => History.IsGreatestCommonAncestor(repo, c, a, b)
    case None => forall c :: !History.IsCommonAncestor(repo, c, a, b)
  }

  /** The query `revA and ancestor(revA,revB)` on `repo`, where `ancestor` answers
      `gca`: `revA` itself when it is that answer. */
  ghost function QueryOn(repo: History.Repo, revA: string, revB: string, gca: Option<nat>): QueryOutcome
  {
    match History.Lookup(repo, revA)
    case None => UnknownRevision(revA)
    case Some(a) =>
      match History.Lookup(repo, revB)
      case None => UnknownRevision(revB)
      case Some(_) =>
        if gca == Some(a) then Listed([ShortNode(repo.changesets[a].node)]) else Listed([])
  }

  /** The query string evaluated on `repo`; an unparsable string lists nothing. */
  ghost function Evaluate(repo: History.Repo, q: string, gca: Option<nat>): QueryOutcome
  {
    match ParseAncestryQuery(q)
    case None => Listed([])
    case Some((revA, revB)) => QueryOn(repo, revA, revB, gca)
  }

  /** Both revisions exist and the first is an ancestor of the second, or is it. */
  ghost predicate ExistsAsAncestor(repo: History.Repo, revA: string, revB: string)
  {
    History.Lookup(repo, revA).Some? && History.Lookup(repo, revB).Some? &&
    History.IsAncestor(repo, History.Lookup(repo, revA).value, History.Lookup(repo, revB).value)
  }

  /** An abort message always holds the unknown-revision text. */
  lemma RenderUnknown(rev: string)
    ensures !ExistsAndIsAncestor(Render(UnknownRevision(rev)))
  {
    var out := Render(UnknownRevision(rev));
    assert out[0..|UnknownRevisionMessage|] == UnknownRevisionMessage;
    assert OccursAt(out, UnknownRevisionMessage, 0);
  }

  /** A short hash of a valid history is never mistaken for the abort message, which
      is longer. */
  lemma RenderShortNode(repo: History.Repo, a: nat)
    requires History.Valid(repo) && a < |repo.changesets|
    ensures ExistsAndIsAncestor(Render(Listed([ShortNode(repo.changesets[a].node)])))
  {
    var out := ShortNode(repo.changesets[a].node);
    assert Render(Listed([out])) == out;
    assert |out| == 12;
  }

  /** A full node hash: forty hex digits. Mercurial resolves it to its changeset or
      aborts with the unknown-revision message. */
  predicate FullHash(rev: string)
  {
    |rev| == 40 && History.IsHex(rev)
  }

  /** The docstring's claim, for revisions given as full hashes: the helper answers true
      exactly when `revA` exists, `revB` exists, and `revA` is an ancestor of `revB` or
      the same changeset, whichever greatest common ancestor Mercurial picks. */
  lemma ExistsAndIsAncestorMeaning(repo: History.Repo, revA: string, revB: string, gca: Option<nat>)
    requires History.Valid(repo)
    requires FullHash(revA) && FullHash(revB)
    requires History.Lookup(repo, revA).Some? && History.Lookup(repo, revB).Some? ==>
               AncestorAnswer(repo, History.Lookup(repo, revA).value, History.Lookup(repo, revB).value, gca)
    ensures ExistsAndIsAncestor(Render(Evaluate(repo, AncestryQuery(revA, revB), gca))) <==>
            ExistsAsAncestor(repo, revA, revB)
  {
    assert forall k :: 0 <= k < |revA| ==> revA[k] != ' ' by {
      assert forall k :: 0 <= k < |revA| ==> History.IsHexDigit(revA[k]);
    }
    AncestryQueryRoundTrip(revA, revB);
    match History.Lookup(repo, revA)
    case None =>
      RenderUnknown(revA);
    case Some(a) =>
      match History.Lookup(repo, revB)
      case None =>
        RenderUnknown(revB);
      case Some(b) =>
        match gca
        case Some(c) =>
          History.GreatestCommonAncestorIsFirst(repo, c, a, b);
          if c == a {
            RenderShortNode(repo, a);
          }
        case None =>
          if History.IsAncestor(repo, a, b) {
            History.AncestorPrecedes(repo, a, b);
            assert History.IsAncestor(repo, a, a);
            assert History.IsCommonAncestor(repo, a, a, b);
          }
  }

  /** A revision that exists, a short hash included, is reported as an ancestor of
      itself. */
  lemma ExistsAndIsAncestorSame(repo: History.Repo, rev: string, gca: Option<nat>)
    requires History.Valid(repo)
    requires ' ' !in rev
    requires History.Lookup(repo, rev).Some?
    requires AncestorAnswer(repo, History.Lookup(repo, rev).value, History.Lookup(repo, rev).value, gca)
    ensures ExistsAndIsAncestor(Render(Evaluate(repo, AncestryQuery(rev, rev), gca)))
  {
    AncestryQueryRoundTrip(rev, rev);
    var a := History.Lookup(repo, rev).value;
    assert History.IsAncestor(repo, a, a);
    match gca
    case Some(c) =>
      History.GreatestCommonAncestorIsFirst(repo, c, a, a);
      RenderShortNode(repo, a);
    case None =>
      assert History.IsCommonAncestor(repo, a, a, a);
  }

  // ---------------------------------------------------------------------------
  // get_repo_hash_and_id

  /** The operator's answer to the "not on default tip" prompt. */
  datatype Choice = Abort | UpdateToDefault | UseThisRev | InvalidChoice

  /** The answer with surrounding white space removed, read as one of the three letters. */
  function Decide(answer: string): Choice
  {
    var c := Strip(answer);
    if c == "a" then Abort
    else if c == "d" then UpdateToDefault
    else if c == "u" then UseThisRev
    else InvalidChoice
  }

  /** White space around a single letter does not change the choice, and the letters
      are read case-sensitively. */
  lemma DecidePadded(pre: string, x: char, post: string)
    requires forall k :: 0 <= k < |pre| ==> IsSpace(pre[k])
    requires forall k :: 0 <= k < |post| ==> IsSpace(post[k])
    requires !IsSpace(x)
    ensures Decide(pre + [x] + post) ==
            if x == 'a' then Abort
            else if x == 'd' then UpdateToDefault
            else if x == 'u' then UseThisRev
            else InvalidChoice
  {
    StripPadded(pre, x, post);
  }

  /** An answer of white space only is invalid. */
  lemma DecideBlank(answer: string)
    requires forall k :: 0 <= k < |answer| ==> IsSpace(answer[k])
    ensures Decide(answer) == InvalidChoice
  {
    var i, j :| StrippedAt(answer, Strip(answer), i, j);
    assert i < j ==> IsSpace(answer[i]);
  }

  /** `hash, num = out.split(" ")`: exactly two pieces, or the number of pieces the
      unpacking found. */
  function SplitHashAndNum(out: string): (r: Result)
  {
    var parts := Split(out, ' ');
    if |parts| == 2 then Pair(parts[0], parts[1]) else Pieces(|parts|)
  }

  datatype Result = Pair(hash: string, num: string) | Pieces(count: nat)

  /** The split succeeds exactly when the output has one space, and then the two halves
      joined around it give the output back. */
  lemma SplitHashAndNumMeaning(out: string)
    ensures SplitHashAndNum(out).Pair? <==> CountChar(out, ' ') == 1
    ensures SplitHashAndNum(out).Pieces? ==> SplitHashAndNum(out).count == CountChar(out, ' ') + 1
    ensures SplitHashAndNum(out).Pair? ==>
              var r := SplitHashAndNum(out);
              r.hash + " " + r.num == out && ' ' !in r.hash && ' ' !in r.num
  {
    SplitCount(out, ' ');
    SplitJoin(out, ' ');
    var parts := Split(out, ' ');
    if |parts| == 2 {
      assert parts[1..] == [parts[1]];
    }
  }

  /** Splitting a hash and a number that hold no space gets them back. */
  lemma SplitHashAndNumRoundTrip(hash: string, num: string)
    requires ' ' !in hash && ' ' !in num
    ensures SplitHashAndNum(hash + " " + num) == Pair(hash, num)
  {
    SplitAroundFirst(hash, num, ' ');
    assert hash + " " + num == hash + [' '] + num;
  }

  /** The commands and prompts the helper issues, in order. */
  datatype Event =
    | RunLog(rev: string)  // `hg log -r rev --template "{node|short} {rev}"`
    | Prompt               // asks whether to abort, update or use this revision
    | RunUpdateDefault     // `hg update default`

  datatype HgError = InvalidChoiceError | EmptyOutput | Unpack(pieces: nat)

  datatype Outcome =
    | Exited(status: int)              // `sys.exit`
    | Failed(error: HgError)           // an exception
    | Identified(hash: string, num: string, onDefault: bool)

  /** How the helper ends once it has the output `out` to split. */
  function Finish(out: string, onDefault: bool): (o: Outcome)
    ensures o.Identified? ==> o.hash + " " + o.num == out && o.onDefault == onDefault
    ensures o.Identified? <==> CountChar(out, ' ') == 1
  {
    SplitHashAndNumMeaning(out);
    if out == "" then Failed(EmptyOutput)
    else
      match SplitHashAndNum(out)
      case Pieces(n) => Failed(Unpack(n))
      case Pair(h, n) => Identified(h, n, onDefault)
  }

  /** The revision `get_repo_hash_and_id` asks for unless told otherwise. */
  const DefaultRevset := "parents() and default"
  const ParentsRevset := "parents()"

  /** `get_repo_hash_and_id`. `firstOut` is what the first `hg log` prints, `answer`
      what the operator types if asked, and `secondOut` what the second `hg log` prints
      if one runs. `repoRev` is the revision asked for, by default the working copy's
      parent when it is on the default branch. */
  method GetRepoHashAndId(firstOut: string, answer: string, secondOut: string,
                          repoRev: string := DefaultRevset)
    returns (outcome: Outcome, events: seq<Event>)
    ensures firstOut != "" ==> events == [RunLog(repoRev)] && outcome == Finish(firstOut, true)
    ensures firstOut == "" && Decide(answer) == Abort ==>
              events == [RunLog(repoRev), Prompt] && outcome == Exited(0)
    ensures firstOut == "" && Decide(answer) == UpdateToDefault ==>
              events == [RunLog(repoRev), Prompt, RunUpdateDefault, RunLog(repoRev)] &&
              outcome == Finish(secondOut, true)
    ensures firstOut == "" && Decide(answer) == UseThisRev ==>
              events == [RunLog(repoRev), Prompt, RunLog(ParentsRevset)] &&
              outcome == Finish(secondOut, false)
    ensures firstOut == "" && Decide(answer) == InvalidChoice ==>
              events == [RunLog(repoRev), Prompt] && outcome == Failed(InvalidChoiceError)
  {
    var logRev := repoRev;
    events := [RunLog(logRev)];
    var idFull := firstOut;
    var onDefault := idFull != "";
    if !onDefault {
      events := events + [Prompt];
      var choice := Strip(answer);
      if choice == "a" {
        return Exited(0), events;
      } else if choice == "d" {
        events := events + [RunUpdateDefault];
        onDefault := true;
      } else if choice == "u" {
        logRev := ParentsRevset;
      } else {
        return Failed(InvalidChoiceError), events;
      }
      events := events + [RunLog(logRev)];
      idFull := secondOut;
    }
    if idFull == "" {
      return Failed(EmptyOutput), events;
    }
    var parts := Split(idFull, ' ');
    if |parts| != 2 {
      return Failed(Unpack(|parts|)), events;
    }
    outcome := Identified(parts[0], parts[1], onDefault);
  }

  /** On the default tip the helper asks nothing, and a well-formed output is split
      into the hash and number it was printed from. */
  lemma OnDefaultTip(hash: string, num: string)
    requires ' ' !in hash && ' ' !in num
    ensures Finish(hash + " " + num, true) == Identified(hash, num, true)
  {
    SplitHashAndNumRoundTrip(hash, num);
  }

  // ---------------------------------------------------------------------------
  // hgrc_repo_name

  /** The non-empty pieces, in order. */
  function NonEmpty(parts: seq<string>): (r: seq<string>)
    ensures forall k :: 0 <= k < |r| ==> r[k] != "" && r[k] in parts
  {
    if parts == [] then []
    else (if parts[0] == "" then [] else [parts[0]]) + NonEmpty(parts[1..])
  }

  lemma {:induction false} NonEmptyAppend(a: seq<string>, b: seq<string>)
    ensures NonEmpty(a + b) == NonEmpty(a) + NonEmpty(b)
  {
    if a != [] {
      assert (a + b)[1..] == a[1..] + b;
      NonEmptyAppend(a[1..], b);
    } else {
      assert a + b == b;
    }
  }

  /** `hgrc_repo_name` on the `default` path: the last non-empty `/`-separated piece;
      `None` where the original raises an index error. */
  function HgrcRepoName(path: string): (r: Option<string>)
    ensures r.Some? ==> r.value != "" && '/' !in r.value
  {
    var segments := NonEmpty(Split(path, '/'));
    if segments == [] then None else Some(segments[|segments| - 1])
  }

  /** A path made of slashes only is an error. */
  ghost predicate OnlySlashes(path: string)
  {
    forall k :: 0 <= k < |path| ==> path[k] == '/'
  }

  lemma {:induction false} NoSegments(path: string)
    ensures NonEmpty(Split(path, '/')) == [] <==> OnlySlashes(path)
    decreases |path|
  {
    match IndexOfChar(path, '/')
    case None =>
      assert NonEmpty([path]) == (if path == "" then [] else [path]) + NonEmpty([]);
      if path != "" {
        assert path[0] != '/';
      }
    case Some(k) =>
      var rest := path[k + 1..];
      NoSegments(rest);
      var parts := [path[..k]] + Split(rest, '/');
      assert parts[1..] == Split(rest, '/');
      if k > 0 {
        assert path[0] == path[..k][0];
      } else if OnlySlashes(rest) {
        forall i | 0 <= i < |path| ensures path[i] == '/' {
          if i > 0 {
            assert path[i] == rest[i - 1];
          }
        }
      } else {
        var i :| 0 <= i < |rest| && rest[i] != '/';
        assert path[i + 1] == rest[i];
      }
  }

  /** The name is missing exactly when the path has no character but `/`. */
  lemma HgrcRepoNameMissing(path: string)
    ensures HgrcRepoName(path).None? <==> OnlySlashes(path)
  {
    NoSegments(path);
  }

  /** A trailing `/` does not change the name. */
  lemma HgrcRepoNameTrailingSlash(path: string)
    ensures HgrcRepoName(path + "/") == HgrcRepoName(path)
  {
    SplitTrailing(path, '/');
    NonEmptyAppend(Split(path, '/'), [""]);
    assert NonEmpty([""]) == [];
  }

  /** The name is the piece after the last `/`. */
  lemma HgrcRepoNameLast(prefix: string, name: string)
    requires name != "" && '/' !in name
    ensures HgrcRepoName(prefix + "/" + name) == Some(name)
  {
    SplitAround(prefix, name, '/');
    assert prefix + "/" + name == prefix + ['/'] + name;
    NonEmptyAppend(Split(prefix, '/'), [name]);
    assert NonEmpty([name]) == [name] + NonEmpty([]);
  }

  /** A path without `/`, such as a bare `repo`, is its own name. */
  lemma HgrcRepoNameSingle(name: string)
    requires name != "" && '/' !in name
    ensures HgrcRepoName(name) == Some(name)
  {
    SplitNoSeparator(name, '/');
    assert NonEmpty([name]) == [name] + NonEmpty([]);
  }
}
