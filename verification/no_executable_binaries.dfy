/**
  The no-executable-binaries file hook of the Mononoke server: a file
  change is rejected when it makes the file executable and its content is
  binary; everything else is accepted. The rejection carries a fixed short
  description and the configured message with `${filename}` replaced by
  the file's path.

  The content store is reached through `fetch`, which gives the metadata
  of a content id or the failure of that lookup; the hook only consults it
  for executable files.
*/
module NoExecutableBinaries {

  datatype Option<+T> = None | Some(value: T)

  /** The kinds of file a change can create. */
  datatype FileType = Regular | Executable | Symlink | GitSubmodule

  type ContentId = nat

  datatype BasicFileChange = BasicFileChange(fileType: FileType, contentId: ContentId)

  /** The hook's configuration: the long rejection message, in which
      `${filename}` stands for the path of the rejected file. */
  datatype Config = Config(illegalExecutableBinaryMessage: string)

  datatype ContentMetadata = ContentMetadata(isBinary: bool)

  /** What the content store returns for a metadata lookup. */
  datatype Fetch = Fetched(metadata: ContentMetadata) | FetchFailed(reason: string)

  datatype HookRejectionInfo = HookRejectionInfo(description: string, longDescription: string)

  datatype HookExecution = Accepted | Rejected(info: HookRejectionInfo)

  /** The hook's result: a verdict, or the error that stopped it. */
  datatype Outcome = Ran(execution: HookExecution) | Failed(reason: string)

  const FILENAME_PLACEHOLDER: string := "${filename}"
  const REJECTION_DESCRIPTION: string := "Illegal executable file"

  // ---------------------------------------------------------------- string replacement

  /** `s` starts with `pattern`. */
  predicate StartsWith(s: string, pattern: string) {
    |pattern| <= |s| && s[..|pattern|] == pattern
  }

  /** No occurrence of `pattern` begins in the first `k` characters of `s`. */
  predicate NoMatchBefore(s: string, k: nat, pattern: string)
    requires k <= |s|
  {
    forall i | 0 <= i < k :: !StartsWith(s[i..], pattern)
  }

  /** Every occurrence of `pattern` replaced by `replacement`, matches taken
      left to right without overlapping (Rust's `str::replace`). */
  function Replace(s: string, pattern: string, replacement: string): string
    requires |pattern| > 0
    decreases |s|
  {
    if |s| == 0 then []
    else if StartsWith(s, pattern) then replacement + Replace(s[|pattern|..], pattern, replacement)
    else [s[0]] + Replace(s[1..], pattern, replacement)
  }

  /** A prefix in which no occurrence begins is copied unchanged. */
  lemma {:induction false} ReplaceSkipsPrefix(s: string, k: nat, pattern: string, replacement: string)
    requires |pattern| > 0 && k <= |s| && NoMatchBefore(s, k, pattern)
    ensures Replace(s, pattern, replacement) == s[..k] + Replace(s[k..], pattern, replacement)
    decreases k
  {
    if k > 0 {
      assert !StartsWith(s[0..], pattern);
      assert s[0..] == s;
      forall i | 0 <= i < k - 1
        ensures !StartsWith(s[1..][i..], pattern)
      {
        assert s[1..][i..] == s[i + 1..];
      }
      ReplaceSkipsPrefix(s[1..], k - 1, pattern, replacement);
      assert s[1..][k - 1..] == s[k..];
      assert [s[0]] + s[1..][..k - 1] == s[..k];
    }
  }

  /** A string without an occurrence of the pattern is left as it is. */
  lemma ReplaceWithoutMatch(s: string, pattern: string, replacement: string)
    requires |pattern| > 0 && NoMatchBefore(s, |s|, pattern)
    ensures Replace(s, pattern, replacement) == s
  {
    ReplaceSkipsPrefix(s, |s|, pattern, replacement);
    assert s[..|s|] == s;
  }

  /** At the first occurrence, the replacement is written in place of the
      pattern and the search resumes after it; with ReplaceWithoutMatch this
      accounts for every occurrence in any string. */
  lemma ReplaceAtFirstMatch(s: string, k: nat, pattern: string, replacement: string)
    requires |pattern| > 0 && k <= |s| && NoMatchBefore(s, k, pattern) && StartsWith(s[k..], pattern)
    ensures Replace(s, pattern, replacement)
            == s[..k] + replacement + Replace(s[k + |pattern|..], pattern, replacement)
  {
    ReplaceSkipsPrefix(s, k, pattern, replacement);
    var t := s[k..];
    ReplaceAtStart(t, pattern, replacement);
    assert t[|pattern|..] == s[k + |pattern|..];
    var rest := Replace(s[k + |pattern|..], pattern, replacement);
    assert s[..k] + (replacement + rest) == s[..k] + replacement + rest;
  }

  lemma ReplaceAtStart(t: string, pattern: string, replacement: string)
    requires |pattern| > 0 && StartsWith(t, pattern)
    ensures Replace(t, pattern, replacement) == replacement + Replace(t[|pattern|..], pattern, replacement)
  {
  }

  /** Strings in which the pattern's first character does not occur have
      no occurrence of it. */
  lemma NoMatchWithoutHead(s: string, k: nat, pattern: string)
    requires |pattern| > 0 && k <= |s|
    requires forall i | 0 <= i < k :: s[i] != pattern[0]
    ensures NoMatchBefore(s, k, pattern)
  {
    forall i | 0 <= i < k
      ensures !StartsWith(s[i..], pattern)
    {
      assert s[i..][0] == s[i];
    }
  }

  // ---------------------------------------------------------------- the hook

  /** The long description of a rejection of the file at `path`. */
  function RejectionMessage(config: Config, path: string): string {
    Replace(config.illegalExecutableBinaryMessage, FILENAME_PLACEHOLDER, path)
  }

  /** The hook's verdict on one file change at `path`. */
  function Run(config: Config, change: Option<BasicFileChange>, path: string,
               fetch: ContentId -> Fetch): Outcome
  {
    match change
    case None => Ran(Accepted)  // the file is deleted by this change
    case Some(fc) =>
      if fc.fileType != Executable then Ran(Accepted)
      else
        match fetch(fc.contentId)
        case FetchFailed(reason) => Failed(reason)
        case Fetched(metadata) =>
          if metadata.isBinary then
            Ran(Rejected(HookRejectionInfo(REJECTION_DESCRIPTION, RejectionMessage(config, path))))
          else Ran(Accepted)
  }

  /** Without a change, or for a change that is not executable, the file is
      accepted and its content's metadata is never looked at: any content
      store gives the same verdict. */
  lemma AcceptedWithoutLookup(config: Config, change: Option<BasicFileChange>, path: string,
                              fetch: ContentId -> Fetch, otherFetch: ContentId -> Fetch)
    requires change.None? || change.value.fileType != Executable
    ensures Run(config, change, path, fetch) == Ran(Accepted)
    ensures Run(config, change, path, fetch) == Run(config, change, path, otherFetch)
  {
  }

  /** Rejected exactly for an executable file whose content is binary, and
      then with the fixed description and the configured message for its path. */
  lemma RejectedIffExecutableBinary(config: Config, change: Option<BasicFileChange>, path: string,
                                    fetch: ContentId -> Fetch)
    ensures Run(config, change, path, fetch).Ran? && Run(config, change, path, fetch).execution.Rejected?
            <==> change.Some? && change.value.fileType == Executable
                 && fetch(change.value.contentId) == Fetched(ContentMetadata(true))
    ensures Run(config, change, path, fetch).Ran? && Run(config, change, path, fetch).execution.Rejected?
            ==> Run(config, change, path, fetch).execution.info
                == HookRejectionInfo("Illegal executable file", RejectionMessage(config, path))
  {
  }

  /** An executable text file is accepted. */
  lemma ExecutableTextAccepted(config: Config, fc: BasicFileChange, path: string, fetch: ContentId -> Fetch)
    requires fc.fileType == Executable && fetch(fc.contentId) == Fetched(ContentMetadata(false))
    ensures Run(config, Some(fc), path, fetch) == Ran(Accepted)
  {
  }

  /** The hook fails only when it had to look up an executable file's
      metadata and the lookup failed, and then with that lookup's error. */
  lemma FailsOnlyOnLookup(config: Config, change: Option<BasicFileChange>, path: string,
                          fetch: ContentId -> Fetch)
    ensures Run(config, change, path, fetch).Failed?
            <==> change.Some? && change.value.fileType == Executable
                 && fetch(change.value.contentId).FetchFailed?
    ensures Run(config, change, path, fetch).Failed?
            ==> Run(config, change, path, fetch).reason == fetch(change.value.contentId).reason
  {
  }

  /** The verdict depends on the change and its content only: the path and
      the configured message shape the rejection message and nothing else. */
  lemma VerdictIgnoresPathAndMessage(config: Config, otherConfig: Config, change: Option<BasicFileChange>,
                                     path: string, otherPath: string, fetch: ContentId -> Fetch)
    ensures var r, s := Run(config, change, path, fetch), Run(otherConfig, change, otherPath, fetch);
            && r.Failed? == s.Failed?
            && (r.Ran? ==> r.execution.Accepted? == s.execution.Accepted?)
  {
  }

  /** A message holding the placeholder once, and no other character that
      could start it, gets the path in its place and is otherwise unchanged. */
  lemma ReplaceSingleOccurrence(head: string, tail: string, pattern: string, replacement: string)
    requires |pattern| > 0
    requires forall i | 0 <= i < |head| :: head[i] != pattern[0]
    requires forall i | 0 <= i < |tail| :: tail[i] != pattern[0]
    ensures Replace(head + pattern + tail, pattern, replacement) == head + replacement + tail
  {
    var s := head + pattern + tail;
    forall i | 0 <= i < |head| ensures s[i] != pattern[0] {
      assert s[i] == head[i];
    }
    NoMatchWithoutHead(s, |head|, pattern);
    ReplaceSkipsPrefix(s, |head|, pattern, replacement);
    assert s[..|head|] == head;
    var m := s[|head|..];
    assert m == pattern + tail;
    assert StartsWith(m, pattern);
    assert m[|pattern|..] == tail;
    NoMatchWithoutHead(tail, |tail|, pattern);
    ReplaceWithoutMatch(tail, pattern, replacement);
  }

  /** A configured message holding `${filename}` once, with no other `$`
      in it, is rejected with the file's path in its place and the rest of
      the message unchanged. */
  lemma RejectionMessageSubstitutesPath(head: string, tail: string, path: string)
    requires '$' !in head && '$' !in tail
    ensures RejectionMessage(Config(head + FILENAME_PLACEHOLDER + tail), path) == head + path + tail
  {
    assert FILENAME_PLACEHOLDER[0] == '$';
    forall i | 0 <= i < |head| ensures head[i] != FILENAME_PLACEHOLDER[0] {
      assert head[i] in head;
    }
    forall i | 0 <= i < |tail| ensures tail[i] != FILENAME_PLACEHOLDER[0] {
      assert tail[i] in tail;
    }
    ReplaceSingleOccurrence(head, tail, FILENAME_PLACEHOLDER, path);
  }

  const TEST_MESSAGE_HEAD := "Executable file '"
  const TEST_MESSAGE_TAIL := "' can't be committed."

  /** The message configured in the hook's tests, "Executable file
      '${filename}' can't be committed.", names the rejected file: for
      foo/bar/exec it reads "Executable file 'foo/bar/exec' can't be committed." */
  lemma RejectionMessageExample(path: string)
    ensures RejectionMessage(Config(TEST_MESSAGE_HEAD + FILENAME_PLACEHOLDER + TEST_MESSAGE_TAIL), path)
            == TEST_MESSAGE_HEAD + path + TEST_MESSAGE_TAIL
  {
    assert '$' !in TEST_MESSAGE_HEAD && '$' !in TEST_MESSAGE_TAIL;
    RejectionMessageSubstitutesPath(TEST_MESSAGE_HEAD, TEST_MESSAGE_TAIL, path);
  }
}
