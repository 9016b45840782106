/** One run of the export option (`twitter_option`, main.py:84-117): read a
    username, validate it, fetch its followings, save them, each step
    short-circuiting on failure. The console is replaced by the line typed,
    and each step by the answer it gives. */
module Exporter {
  import opened Results
  import opened Text
  import Profile
  import Followings
  import CsvExport

  /** The three calls a run may make, in the order it makes them. */
  datatype Step = Validation | Retrieval | Saving

  /** The answers a run gets from its steps, whether or not it asks for them:
      the `(valid, message)` pair of `validate_username`, the result of
      `get_followings`, and the clock reading and the write outcome that
      `save_to_csv` meets. */
  datatype Answers = Answers(
    validation: (bool, string),
    fetched: Result<seq<string>>,
    timestamp: string,
    io: CsvExport.IoOutcome)

  /** What one run did: the calls it made, the lines it printed and the file
      it created, if any. */
  datatype Run = Run(steps: seq<Step>, lines: seq<string>, saved: Option<CsvExport.ExportRecord>)

  const AllSteps := [Validation, Retrieval, Saving]
  const EmptyUsernameLine := "Username cannot be empty."
  const ScrapingNote := "Note: Web scraping may not get all followings and might be unreliable."
  const NoFollowingsLine := "Couldn't fetch any followings. Twitter's structure may have changed."
  const SavedPrefix := "Successfully saved followings to "

  /** `twitter_option` for the typed line `input`. The calls made are always
      a prefix of validate, fetch, save, so none is made after a failed one;
      a file is created only by a save. */
  function TwitterOption(input: string, answers: Answers): (run: Run)
    ensures run.steps <= AllSteps
    ensures run.lines != []
    ensures run.steps == AllSteps ==> (run.saved.Some? <==> answers.io.Written?)
    ensures run.steps != AllSteps ==> run.saved == None
  {
    var username := Strip(input);
    if username == [] then Run([], [EmptyUsernameLine], None)
    else
      var checking := "Checking username @" + username + "...";
      var (valid, message) := answers.validation;
      if !valid then Run([Validation], [checking, message], None)
      else
        Retrieve(username, answers, [checking,
          "Found valid user @" + username + ". Attempting to fetch followings...",
          ScrapingNote])
  }

  /** The run from the fetch on, after `printed` has been printed. */
  function Retrieve(username: string, answers: Answers, printed: seq<string>): (run: Run)
    ensures run.steps == [Validation, Retrieval] || run.steps == AllSteps
    ensures run.lines != []
    ensures run.steps == [Validation, Retrieval] ==> run.saved == None
    ensures run.steps == AllSteps ==> (run.saved.Some? <==> answers.io.Written?)
  {
    match answers.fetched
    case Err(message) => Run([Validation, Retrieval], printed + [message], None)
    case Ok(followings) =>
      if followings == [] then Run([Validation, Retrieval], printed + [NoFollowingsLine], None)
      else
        Save(username, followings, answers,
          printed + ["Found " + Decimal(|followings|) + " followings. Saving to file..."])
  }

  /** The run from the save on: the last line reports the file created or
      the write error. */
  function Save(username: string, followings: seq<string>, answers: Answers, printed: seq<string>): (run: Run)
    ensures run.steps == AllSteps && run.lines != []
    ensures run.saved.Some? <==> answers.io.Written?
  {
    match CsvExport.SaveOutcome(username, followings, answers.timestamp, answers.io)
    case Ok(record) => Run(AllSteps, printed + [SavedPrefix + record.path], Some(record))
    case Err(message) => Run(AllSteps, printed + [message], None)
  }

  /** What the outside world answers during one run: the profile request,
      the following-page request, the clock reading and the file write. */
  datatype World = World(
    profile: Profile.ProfileFetch,
    page: Followings.PageFetch,
    clock: CsvExport.Clock,
    io: CsvExport.IoOutcome)

  /** The step answers the world gives for `username`: the clock reaches the
      save as its `strftime` rendering. */
  function AnswersFor(username: string, world: World): (answers: Answers)
    requires CsvExport.ValidClock(world.clock)
    ensures CsvExport.IsTimestamp(answers.timestamp)
  {
    Answers(
      Profile.ValidateUsername(world.profile),
      Followings.Followings(username, world.page),
      CsvExport.Timestamp(world.clock),
      world.io)
  }

  /** The script's run for the typed line `input` in `world`. The file it
      creates, if any, is named after the clock reading and the stripped
      username, both of which read back from the path. */
  function RunIn(input: string, world: World): (run: Run)
    requires CsvExport.ValidClock(world.clock)
    ensures run.saved.Some? ==>
      CsvExport.ParseFileName(run.saved.value.path) ==
        Some((CsvExport.Timestamp(world.clock), Strip(input)))
  {
    var answers := AnswersFor(Strip(input), world);
    var run := TwitterOption(input, answers);
    if run.saved.Some? then
      SavedFileIsTheExport(input, answers);
      CsvExport.FileNameRoundTrip(answers.timestamp, Strip(input));
      run
    else
      run
  }

  /** No call is made twice in one run. */
  lemma EachStepAtMostOnce(input: string, answers: Answers)
    ensures var steps := TwitterOption(input, answers).steps;
      forall i, j :: 0 <= i < j < |steps| ==> steps[i] != steps[j]
  {
    PrefixRepeatsNoStep(TwitterOption(input, answers).steps);
  }

  lemma PrefixRepeatsNoStep(steps: seq<Step>)
    requires steps <= AllSteps
    ensures forall i, j :: 0 <= i < j < |steps| ==> steps[i] != steps[j]
  {
    assert forall i :: 0 <= i < |steps| ==> steps[i] == AllSteps[i];
  }

  /** A blank username is refused before any call: nothing is called
      exactly when the typed line is all whitespace, and the run then prints
      only the refusal. */
  lemma BlankUsernameNeverValidated(input: string, answers: Answers)
    ensures var run := TwitterOption(input, answers);
      && (run.steps == [] <==> forall i :: 0 <= i < |input| ==> IsSpace(input[i]))
      && (run.steps == [] ==> run.lines == [EmptyUsernameLine] && run.saved == None)
  {
    var run := TwitterOption(input, answers);
    assert run.steps == [] <==> Strip(input) == [];
  }

  /** The following page is requested exactly when the username is not
      blank and validation succeeded; a failed validation ends the run with
      its own message as the last line. */
  lemma ValidationGatesRetrieval(input: string, answers: Answers)
    requires Strip(input) != []
    ensures var run := TwitterOption(input, answers);
      && (Retrieval in run.steps <==> answers.validation.0)
      && (!answers.validation.0 ==>
            run.steps == [Validation] && run.lines[|run.lines| - 1] == answers.validation.1)
  {
  }

  /** After a successful validation, a save is attempted exactly when the
      fetch produced a non-empty list. */
  lemma SavingNeedsFollowings(input: string, answers: Answers)
    requires Strip(input) != [] && answers.validation.0
    ensures Saving in TwitterOption(input, answers).steps <==>
      answers.fetched.Ok? && answers.fetched.value != []
  {
  }

  /** A failed fetch ends the run with the fetch error and creates no file. */
  lemma FetchErrorEndsRun(input: string, answers: Answers)
    requires Strip(input) != [] && answers.validation.0 && answers.fetched.Err?
    ensures var run := TwitterOption(input, answers);
      run.lines[|run.lines| - 1] == answers.fetched.message && run.saved == None
  {
  }

  /** An empty list is not an error but ends the run with its own line and
      creates no file. */
  lemma EmptyListEndsRun(input: string, answers: Answers)
    requires Strip(input) != [] && answers.validation.0 && answers.fetched == Ok([])
    ensures var run := TwitterOption(input, answers);
      run.lines[|run.lines| - 1] == NoFollowingsLine && run.saved == None
  {
  }

  /** A file is created exactly when the save is reached and the write
      succeeds. */
  lemma SavedOnlyWhenWritten(input: string, answers: Answers)
    ensures var run := TwitterOption(input, answers);
      run.saved.Some? <==> Saving in run.steps && answers.io.Written?
  {
    assert Saving in AllSteps && Saving !in [Validation, Retrieval] && Saving !in [Validation];
  }

  /** A failed write ends the run with the save error and creates no
      file. */
  lemma WriteErrorEndsRun(input: string, answers: Answers)
    requires Strip(input) != [] && answers.validation.0
    requires answers.fetched.Ok? && answers.fetched.value != []
    requires answers.io.WriteFailed?
    ensures var run := TwitterOption(input, answers);
      && run.steps == AllSteps
      && run.lines[|run.lines| - 1] == CsvExport.SaveErrorPrefix + answers.io.detail
      && run.saved == None
  {
  }

  /** The file created sits at the path built from the timestamp and the
      stripped username, reads back as the non-empty fetched list, and the
      run's last line names it. */
  lemma SavedFileIsTheExport(input: string, answers: Answers)
    requires TwitterOption(input, answers).saved.Some?
    ensures var run := TwitterOption(input, answers);
      && answers.fetched.Ok? && answers.fetched.value != []
      && run.saved.value.path == CsvExport.FileName(answers.timestamp, Strip(input))
      && CsvExport.ReadBack(run.saved.value.rows) == Some(answers.fetched.value)
      && run.lines[|run.lines| - 1] == SavedPrefix + run.saved.value.path
  {
    CsvExport.ReadBackRoundTrip(answers.fetched.value);
  }

  /** A validated user with a non-empty list and a successful write gets
      one file: at the path built from the timestamp and the stripped
      username, holding the export rows of that list. */
  lemma ValidFetchIsExported(input: string, answers: Answers, followings: seq<string>)
    requires Strip(input) != [] && answers.validation.0
    requires answers.fetched == Ok(followings) && followings != []
    requires answers.io == CsvExport.Written
    ensures TwitterOption(input, answers).saved ==
      Some(CsvExport.ExportRecord(
        CsvExport.FileName(answers.timestamp, Strip(input)),
        CsvExport.CsvRows(followings)))
  {
  }

  /** A validated user whose page lists one profile twice with another in
      between gets one file holding the header row and the two handles, each
      once, in first-seen order. */
  lemma RepeatedFollowingExportedOnce(input: string, world: World, a: string, b: string)
    requires CsvExport.ValidClock(world.clock)
    requires Strip(input) != [] && Profile.ValidateUsername(world.profile).0
    requires world.page == Followings.PageReceived([a, b, a])
    requires Followings.MatchesProfileLink(a) && Followings.MatchesProfileLink(b) && a != b
    requires Followings.IsKept(Strip(input), a) && Followings.IsKept(Strip(input), b)
    requires world.io == CsvExport.Written
    ensures RunIn(input, world).saved ==
      Some(CsvExport.ExportRecord(
        CsvExport.FileName(CsvExport.Timestamp(world.clock), Strip(input)),
        [[CsvExport.Header], [Followings.Handle(a)], [Followings.Handle(b)]]))
  {
    var username := Strip(input);
    var answers := AnswersFor(username, world);
    Followings.RepeatedLinkRecordedOnce(username, a, b);
    var followings := [Followings.Handle(a), Followings.Handle(b)];
    assert answers.fetched == Ok(followings) && answers.validation.0 && answers.io.Written?;
    ValidFetchIsExported(input, answers, followings);
    CsvExport.TwoRowExport(followings[0], followings[1]);
  }
}
