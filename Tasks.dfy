/**
 * The decisions the individual gulp tasks take once their external call
 * has answered: the token gate of `release`, the status test of
 * `check-github`, the line filter of `ensure-clean` and the rejection
 * filter of `github-release`.
 */
module Tasks {
  import opened Wrappers
  import opened Text

  /** The errors the tasks hand to `done`. */
  datatype Error =
    | MissingToken                 // release: no token
    | GithubDown(body: string)     // check-github: status is not "good"
    | NotClean(lines: seq<string>) // ensure-clean: the trimmed non-empty status lines
    | NotOnMaster                  // strip-prerelease-version on another branch
    | InvalidVersion               // the package record has no readable version (thrown by semver)
    | ReleaseRejected              // github-release: some result was rejected
    | External(message: string)    // an error from git or the release library, passed on as it came

  /** `args['github-token'] || args.githubToken || process.env.GITHUB_TOKEN`. */
  function ChooseToken(dashed: Option<string>, camel: Option<string>, env: Option<string>): (token: Option<string>)
    ensures Truthy(token) <==> Truthy(dashed) || Truthy(camel) || Truthy(env)
    ensures Truthy(dashed) ==> token == dashed
    ensures !Truthy(dashed) && Truthy(camel) ==> token == camel
    ensures !Truthy(dashed) && !Truthy(camel) ==> token == env
  {
    if Truthy(dashed) then dashed else if Truthy(camel) then camel else env
  }

  // ---------------------------------------------------------------------
  // check-github
  // ---------------------------------------------------------------------

  /** The decoded reply of the status endpoint: its `status` field, if any,
      and the raw body quoted in the error. */
  datatype StatusReply = StatusReply(status: Option<string>, body: string)

  /** `check-github` succeeds exactly when the status is "good". */
  function CheckGithub(reply: StatusReply): (r: Outcome<Error>)
    ensures r.Pass? <==> reply.status == Some("good")
    ensures r.Fail? ==> r.error == GithubDown(reply.body)
  {
    if reply.status == Some("good") then Pass else Fail(GithubDown(reply.body))
  }

  // ---------------------------------------------------------------------
  // ensure-clean
  // ---------------------------------------------------------------------

  /** The `_.filter(l => !_.isEmpty(l))` step: the non-empty pieces, in order. */
  function NonEmpty(pieces: seq<string>): (r: seq<string>)
    ensures |r| <= |pieces|
    ensures forall k :: 0 <= k < |r| ==> r[k] != [] && r[k] in pieces
    ensures forall k :: 0 <= k < |pieces| && pieces[k] != [] ==> pieces[k] in r
    ensures r == [] <==> forall k :: 0 <= k < |pieces| ==> pieces[k] == []
  {
    if pieces == [] then []
    else if pieces[0] == [] then NonEmpty(pieces[1..])
    else [pieces[0]] + NonEmpty(pieces[1..])
  }

  /** The filter keeps order and multiplicity: filtering a concatenation
      concatenates the filtered parts. */
  lemma {:induction false} NonEmptyAppend(a: seq<string>, b: seq<string>)
    ensures NonEmpty(a + b) == NonEmpty(a) + NonEmpty(b)
    decreases |a|
  {
    if a == [] {
      assert a + b == b;
    } else {
      assert (a + b)[1..] == a[1..] + b;
      NonEmptyAppend(a[1..], b);
    }
  }

  /** The `.map(l => l.trim())` step. */
  function TrimEach(lines: seq<string>): (r: seq<string>)
    ensures |r| == |lines|
    ensures forall k :: 0 <= k < |r| ==> r[k] == Trim(lines[k])
  {
    if lines == [] then [] else [Trim(lines[0])] + TrimEach(lines[1..])
  }

  /** The lines `ensure-clean` reports: the porcelain output split on
      newlines, empty pieces dropped, and only then each piece trimmed. */
  function ChangedLines(stdout: string): seq<string>
  {
    TrimEach(NonEmpty(Split(stdout, '\n')))
  }

  /** `ensure-clean`: a git error is passed on; otherwise the task fails,
      listing the changed lines, unless there are none. */
  function EnsureClean(status: Result<string, Error>): (r: Outcome<Error>)
    ensures status.Failure? ==> r == Fail(status.error)
    ensures status.Success? ==> r.Pass? == (ChangedLines(status.value) == [])
    ensures status.Success? && r.Fail? ==> r.error == NotClean(ChangedLines(status.value))
  {
    match status
    case Failure(err) => Fail(err)
    case Success(stdout) =>
      var lines := ChangedLines(stdout);
      if |lines| > 0 then Fail(NotClean(lines)) else Pass
  }

  predicate OnlyNewlines(s: string)
  {
    forall k :: 0 <= k < |s| ==> s[k] == '\n'
  }

  predicate AllEmpty(pieces: seq<string>)
  {
    forall k :: 0 <= k < |pieces| ==> pieces[k] == []
  }

  lemma {:induction false} SplitAllEmptyIffOnlyNewlines(s: string)
    ensures AllEmpty(Split(s, '\n')) <==> OnlyNewlines(s)
    decreases |s|
  {
    if s != [] {
      SplitAllEmptyIffOnlyNewlines(s[1..]);
      var rest := Split(s[1..], '\n');
      if s[0] == '\n' {
        var pieces := Split(s, '\n');
        assert pieces == [[]] + rest;
        assert AllEmpty(pieces) <==> AllEmpty(rest) by {
          if AllEmpty(rest) {
            forall k | 0 <= k < |pieces| ensures pieces[k] == [] {
              if k > 0 { assert pieces[k] == rest[k - 1]; }
            }
          }
          if AllEmpty(pieces) {
            forall k | 0 <= k < |rest| ensures rest[k] == [] {
              assert rest[k] == pieces[k + 1];
            }
          }
        }
        assert OnlyNewlines(s) <==> OnlyNewlines(s[1..]) by {
          if OnlyNewlines(s[1..]) {
            forall k | 0 <= k < |s| ensures s[k] == '\n' {
              if k > 0 { assert s[k] == s[1..][k - 1]; }
            }
          }
        }
      } else {
        assert Split(s, '\n')[0] != [];
      }
    }
  }

  /** `ensure-clean` passes exactly when every piece of the status output
      split on newlines is empty, that is, when the output holds nothing but
      newlines. */
  lemma EnsureCleanIffAllLinesEmpty(stdout: string)
    ensures EnsureClean(Success(stdout)) == Pass <==> AllEmpty(Split(stdout, '\n'))
    ensures EnsureClean(Success(stdout)) == Pass <==> OnlyNewlines(stdout)
  {
    var pieces := Split(stdout, '\n');
    assert |ChangedLines(stdout)| == |NonEmpty(pieces)|;
    SplitAllEmptyIffOnlyNewlines(stdout);
  }

  /** Because empty pieces are dropped before trimming, a line of white
      space alone survives the filter and is reported as a change, trimmed
      to the empty string. */
  lemma WhiteSpaceLineIsAChange(line: string)
    requires line != [] && '\n' !in line && AllWhiteSpace(line)
    ensures EnsureClean(Success(line)) == Fail(NotClean([""]))
  {
    SplitWithoutSeparator(line, '\n');
    assert NonEmpty([line]) == [line];
    TrimEmptyIffWhiteSpace(line);
    assert ChangedLines(line) == TrimEach([line]) == [Trim(line)];
  }

  /** The output is read line by line: an empty line before a newline is
      skipped, and any other line is reported, trimmed, ahead of the lines
      after it. */
  lemma ChangedLinesByLine(line: string, rest: string)
    requires '\n' !in line
    ensures ChangedLines(line + "\n" + rest)
         == (if line == [] then [] else [Trim(line)]) + ChangedLines(rest)
  {
    SplitAtFirstSeparator(line, '\n', rest);
    var pieces := [line] + Split(rest, '\n');
    assert pieces[1..] == Split(rest, '\n');
    if line != [] {
      assert NonEmpty(pieces) == [line] + NonEmpty(Split(rest, '\n'));
      assert ([line] + NonEmpty(Split(rest, '\n')))[1..] == NonEmpty(Split(rest, '\n'));
    }
  }

  lemma SplitModifiedLine()
    ensures Split(" M file.txt\n", '\n') == [" M file.txt", ""]
  {
    assert Split("", '\n') == [[]];
    assert " M file.txt" + ['\n'] + "" == " M file.txt\n";
    SplitAtFirstSeparator(" M file.txt", '\n', "");
  }

  lemma SplitBlankLine()
    ensures Split("\n \n", '\n') == ["", " ", ""]
  {
    assert Split("", '\n') == [[]];
    assert " " + ['\n'] + "" == " \n";
    SplitAtFirstSeparator(" ", '\n', "");
    assert [] + ['\n'] + " \n" == "\n \n";
    SplitAtFirstSeparator("", '\n', " \n");
  }

  lemma TrimModifiedLine()
    ensures Trim(" M file.txt") == "M file.txt"
  {
    assert FirstNonWhiteSpace(" M file.txt") == 1;
    assert EndOfNonWhiteSpace(" M file.txt") == 11;
  }

  lemma TrimBlankLine()
    ensures Trim(" ") == ""
  {
    assert FirstNonWhiteSpace(" ") == 1;
  }

  /** One modified file gives one reported line, trimmed; the trailing
      newline contributes only an empty piece, which is dropped. */
  lemma OneModifiedFileIsReported()
    ensures EnsureClean(Success(" M file.txt\n")) == Fail(NotClean(["M file.txt"]))
  {
    SplitModifiedLine();
    TrimModifiedLine();
    assert NonEmpty([" M file.txt", ""]) == [" M file.txt"] by {
      assert [" M file.txt", ""][1..] == [""];
    }
    assert TrimEach([" M file.txt"]) == [Trim(" M file.txt")];
  }

  /** Blank lines are not skipped: "\n \n" is reported as one change, the
      empty string. */
  lemma BlankLineBetweenNewlinesFails()
    ensures EnsureClean(Success("\n \n")) == Fail(NotClean([""]))
  {
    SplitBlankLine();
    TrimBlankLine();
    assert NonEmpty(["", " ", ""]) == [" "] by {
      assert ["", " ", ""][1..] == [" ", ""];
      assert [" ", ""][1..] == [""];
    }
    assert TrimEach([" "]) == [Trim(" ")];
  }

  /** Every reported line is trimmed. */
  lemma ChangedLinesAreTrimmed(stdout: string)
    ensures forall k :: 0 <= k < |ChangedLines(stdout)| ==> Trim(ChangedLines(stdout)[k]) == ChangedLines(stdout)[k]
  {
    var lines := ChangedLines(stdout);
    forall k | 0 <= k < |lines| ensures Trim(lines[k]) == lines[k] {
      TrimIdempotent(NonEmpty(Split(stdout, '\n'))[k]);
    }
  }

  // ---------------------------------------------------------------------
  // github-release
  // ---------------------------------------------------------------------

  /** One entry of the release library's result list: its `state` and the
      messages of its `reason` list. */
  datatype PublishResult = PublishResult(state: string, reasons: seq<string>)

  /** What `github-release` does with the callback it receives: the outcome
      handed to `done`, and the reason messages it logs. */
  datatype PublishVerdict = PublishVerdict(outcome: Outcome<Error>, reported: seq<string>)

  predicate IsRejected(r: PublishResult)
  {
    r.state == "rejected"
  }

  /** `_.filter(result, r => r.state === 'rejected')`. */
  function Rejections(results: seq<PublishResult>): (r: seq<PublishResult>)
    ensures |r| <= |results|
    ensures forall k :: 0 <= k < |r| ==> IsRejected(r[k]) && r[k] in results
    ensures forall k :: 0 <= k < |results| && IsRejected(results[k]) ==> results[k] in r
    ensures r == [] <==> forall k :: 0 <= k < |results| ==> !IsRejected(results[k])
  {
    if results == [] then []
    else if IsRejected(results[0]) then [results[0]] + Rejections(results[1..])
    else Rejections(results[1..])
  }

  /** The filter keeps order and multiplicity: filtering a concatenation
      concatenates the filtered parts. */
  lemma {:induction false} RejectionsAppend(a: seq<PublishResult>, b: seq<PublishResult>)
    ensures Rejections(a + b) == Rejections(a) + Rejections(b)
    decreases |a|
  {
    if a == [] {
      assert a + b == b;
    } else {
      assert (a + b)[1..] == a[1..] + b;
      RejectionsAppend(a[1..], b);
    }
  }

  /** The reason messages of `rs`, entry after entry. */
  function ReasonsOf(rs: seq<PublishResult>): (m: seq<string>)
    ensures forall k, j :: 0 <= k < |rs| && 0 <= j < |rs[k].reasons| ==> rs[k].reasons[j] in m
    ensures forall msg :: msg in m ==> exists k :: 0 <= k < |rs| && msg in rs[k].reasons
  {
    if rs == [] then []
    else
      var rest := ReasonsOf(rs[1..]);
      assert forall k :: 1 <= k < |rs| ==> rs[k] == rs[1..][k - 1];
      rs[0].reasons + rest
  }

  /** The callback of `github-release`: a transport error is passed on as it
      came; otherwise the task fails exactly when some result is rejected,
      and then every reason of every rejected result is logged. */
  function GithubRelease(transport: Option<Error>, results: seq<PublishResult>): (v: PublishVerdict)
    ensures transport.Some? ==> v == PublishVerdict(Fail(transport.value), [])
    ensures transport.None? ==>
      (v.outcome.Fail? <==> exists k :: 0 <= k < |results| && IsRejected(results[k]))
    ensures transport.None? && v.outcome.Fail? ==> v.outcome.error == ReleaseRejected
    ensures transport.None? ==> v.reported == ReasonsOf(Rejections(results))
  {
    match transport
    case Some(err) => PublishVerdict(Fail(err), [])
    case None =>
      var rejections := Rejections(results);
      if |rejections| > 0 then PublishVerdict(Fail(ReleaseRejected), ReasonsOf(rejections))
      else PublishVerdict(Pass, [])
  }

  /** The reasons logged are exactly those of the rejected results: each
      reason of each rejected result is logged, and each logged message is a
      reason of some rejected result. */
  lemma GithubReleaseReportsEveryReason(results: seq<PublishResult>)
    ensures var v := GithubRelease(None, results);
      && (forall k, j :: 0 <= k < |results| && IsRejected(results[k]) && 0 <= j < |results[k].reasons|
            ==> results[k].reasons[j] in v.reported)
      && (forall msg :: msg in v.reported ==>
            exists k :: 0 <= k < |results| && IsRejected(results[k]) && msg in results[k].reasons)
  {
    var rs := Rejections(results);
    var v := GithubRelease(None, results);
    forall k, j | 0 <= k < |results| && IsRejected(results[k]) && 0 <= j < |results[k].reasons|
      ensures results[k].reasons[j] in v.reported
    {
      var i :| 0 <= i < |rs| && rs[i] == results[k];
      assert rs[i].reasons[j] in ReasonsOf(rs);
    }
    forall msg | msg in v.reported
      ensures exists k :: 0 <= k < |results| && IsRejected(results[k]) && msg in results[k].reasons
    {
      var i :| 0 <= i < |rs| && msg in rs[i].reasons;
      var k :| 0 <= k < |results| && results[k] == rs[i];
    }
  }
}
