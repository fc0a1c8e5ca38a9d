/**
 * The per-user application progression: which job the Job Finder shows,
 * and what drafting, skipping, sending and uploading do to the user's
 * stored profile and to the browser session.
 *
 * The document store is an in-memory `Profile`; its merge writes,
 * `ArrayUnion` and `Increment` become plain record updates, and each
 * button press is one atomic step. The mail sender, the language model,
 * PDF extraction and translation are inputs: a success flag and optional
 * strings.
 */
module Engine {
  import opened Wrappers
  import opened Text
  import opened Catalog
  import opened Composer
  import Cv

  newtype byte = x: int | 0 <= x < 256

  /** An uploaded file kept for sending (the store holds it base64-encoded). */
  datatype Attachment = Attachment(name: string, content: seq<byte>)

  /** One entry of the user's `sent_emails` sub-collection (the timestamp is not modelled). */
  datatype SentRecord = SentRecord(recipient: string, subject: string, body: string, jobTitle: Cell)

  /** The user's stored document. */
  datatype Profile = Profile(
    applied: set<string>,
    sentCount: nat,
    skippedCount: nat,
    sentEmails: seq<SentRecord>,
    attachments: seq<Attachment>,
    cvText: Option<string>)

  /** `current_job_details`: the job being worked on, copied out of its row. */
  datatype JobDetails = JobDetails(
    jobId: nat,
    jobTitle: Cell,
    hospitalName: Cell,
    canton: Cell,
    contactEmail: string,
    jobDescription: Cell)

  /** `manual_job_details`: a job typed in by hand; either key may be absent. */
  datatype ManualDetails = ManualDetails(jobTitle: Option<Cell>, contactEmail: Option<string>)

  /** The browser session's state. */
  datatype Session = Session(
    currentJobId: Option<nat>,
    details: Option<JobDetails>,
    generatedEmail: Option<Draft>,
    manualDetails: Option<ManualDetails>,
    manualEmail: Option<Draft>,
    attachments: seq<Attachment>,
    cvText: Option<string>)

  datatype State = State(profile: Profile, session: Session)

  /** A new user's (empty) document. */
  const EmptyProfile: Profile := Profile({}, 0, 0, [], [], None)
  /** The session defaults set on first load. */
  const InitialSession: Session := Session(None, None, None, None, None, [], None)

  // ---------------------------------------------------------------------
  // Selecting the job to show
  // ---------------------------------------------------------------------

  /**
   * The recipient taken from a contact cell: its `str()`, stripped, cut at
   * the first comma. The result is the text before the first comma, or the
   * whole stripped text when there is none.
   */
  function NormaliseContact(c: Cell): (r: string)
    ensures ',' !in r
    ensures var full := Strip(c.GetOr([]).Show()); |r| <= |full| && r == full[..|r|]
    ensures var full := Strip(c.GetOr([]).Show()); r == full || (|r| < |full| && full[|r|] == ',')
  {
    var full := Strip(c.GetOr([]).Show());
    var r := FirstPiece(full, ",");
    ContainsChar(r, ',');
    FirstPieceOfChar(full, ',');
    r
  }

  /** An address that is already clean is kept as it is. */
  lemma NormaliseCleanContact(address: string)
    requires ',' !in address && IsStripped(address)
    ensures NormaliseContact(Str(address)) == address
  {
    StripPadded([], address, []);
    assert [] + address + [] == address;
    ContainsChar(address, ',');
  }

  /** The recipient of a clean contact cell is a prefix of it that stops before its first comma. */
  lemma RecipientBeforeComma(c: string, k: nat)
    requires IsStripped(c) && k < |c| && c[k] == ','
    ensures |NormaliseContact(Str(c))| <= k
    ensures NormaliseContact(Str(c)) == c[..|NormaliseContact(Str(c))|]
  {
    StripPadded([], c, []);
    assert [] + c + [] == c;
  }

  /** A prefix no longer than `k` of a text without `@` in its first `k` characters has no `@`. */
  lemma NoAtInShortPrefix(c: string, k: nat, r: string)
    requires k <= |c| && '@' !in c[..k] && |r| <= k && r == c[..|r|]
    ensures '@' !in r
  {
    assert r == c[..k][..|r|];
  }

  /**
   * The scan checks the whole contact cell for `@`, but the recipient is
   * only its first comma-separated piece: a row can be shown whose
   * recipient is not an address at all, e.g. `Sekretariat, hr@spital.ch`
   * is sent to `Sekretariat`.
   */
  lemma RecipientMayLackAt(before: string, after: string)
    requires before != [] && !IsSpace(before[0]) && '@' !in before
    requires '@' in after && !IsSpace(after[|after| - 1])
    ensures HasAddress(Row(Str("T"), Str("H"), Str("BE"), Str(before + "," + after), Str("d")))
    ensures '@' !in NormaliseContact(Str(before + "," + after))
  {
    var c := before + "," + after;
    var k := |before|;
    assert c[k] == ',';
    assert c[..k] == before;
    assert c[|c| - 1] == after[|after| - 1];
    RecipientBeforeComma(c, k);
    NoAtInShortPrefix(c, k, NormaliseContact(Str(c)));
  }

  /** The details recorded for job `j` from its row, with the column defaults of the source. */
  function DetailsFor(j: nat, row: Row): (d: JobDetails)
    ensures d.jobId == j
    ensures d.contactEmail == NormaliseContact(row.contactEmail) && ',' !in d.contactEmail
    ensures row.jobTitle.Missing? ==> d.jobTitle == Str("N/A")
    ensures row.hospitalName.Missing? ==> d.hospitalName == Str([])
    ensures row.canton.Missing? ==> d.canton == Str([])
    ensures row.jobDescription.Missing? ==> d.jobDescription == Str([])
    ensures !row.jobTitle.Missing? ==> d.jobTitle == row.jobTitle
    ensures !row.hospitalName.Missing? ==> d.hospitalName == row.hospitalName
    ensures !row.canton.Missing? ==> d.canton == row.canton
    ensures !row.jobDescription.Missing? ==> d.jobDescription == row.jobDescription
  {
    JobDetails(
      j,
      row.jobTitle.GetOr("N/A"),
      row.hospitalName.GetOr([]),
      row.canton.GetOr([]),
      NormaliseContact(row.contactEmail),
      row.jobDescription.GetOr([]))
  }

  /** The current job id, when set, is the id of the recorded details (the two are always set together). */
  predicate Coherent(s: Session)
  {
    s.currentJobId.Some? ==> s.details.Some? && s.details.value.jobId == s.currentJobId.value
  }

  /**
   * Makes job `j` the current one. Re-selecting the current job keeps the
   * session as it is (an open draft survives); selecting another job
   * discards the draft and records the new job's details.
   */
  function SelectJob(s: Session, j: nat, row: Row): (r: Session)
    requires Coherent(s)
    ensures r.currentJobId == Some(j) && Coherent(r)
    ensures s.currentJobId == Some(j) ==> r == s
    ensures s.currentJobId != Some(j) ==>
      && r.generatedEmail == None
      && r.details == Some(DetailsFor(j, row))
      && ',' !in r.details.value.contactEmail
    ensures r.manualDetails == s.manualDetails && r.manualEmail == s.manualEmail
    ensures r.attachments == s.attachments && r.cvText == s.cvText
  {
    if s.currentJobId != Some(j) then
      s.(currentJobId := Some(j), generatedEmail := None, details := Some(DetailsFor(j, row)))
    else s
  }

  /**
   * The top of the Job Finder page: find the next pending job and select
   * it; when every job is done the session is left alone.
   */
  function ShowNextJob(rows: Table, p: Profile, s: Session): (r: Session)
    requires Coherent(s)
    ensures NextJob(rows, p.applied).None? ==> r == s
    ensures NextJob(rows, p.applied).Some? ==>
      var j := NextJob(rows, p.applied).value;
      && r.currentJobId == Some(j)
      && r.details.Some? && r.details.value.jobId == j
      && (s.currentJobId == Some(j) ==> r == s)
      && (s.currentJobId != Some(j) ==>
            r.generatedEmail == None && r.details == Some(DetailsFor(j, rows[j])))
    ensures r.manualDetails == s.manualDetails && r.manualEmail == s.manualEmail
    ensures r.attachments == s.attachments && r.cvText == s.cvText
  {
    match NextJob(rows, p.applied)
    case None => s
    case Some(j) => SelectJob(s, j, rows[j])
  }

  // ---------------------------------------------------------------------
  // Drafting, skipping, sending
  // ---------------------------------------------------------------------

  /** "Prepare Application": the draft is built from the session's CV text and the model's reply. */
  function PrepareDraft(s: Session, response: Option<string>): (r: Session)
    requires s.details.Some?
    ensures r.generatedEmail == Some(ParseResponse(s.cvText, response))
    ensures !Truthy(s.cvText) ==> r.generatedEmail == Some(Draft([], []))
    ensures Truthy(s.cvText) ==>
      (r.generatedEmail.value.body != [] || (Truthy(response) && Contains(response.value, Delimiter)))
    ensures r.(generatedEmail := s.generatedEmail) == s
  {
    s.(generatedEmail := Some(ParseResponse(s.cvText, response)))
  }

  /**
   * "Skip Job": the shown job's key joins the applied set (a set union, so
   * skipping twice adds nothing new), the skip counter goes up by one and
   * the session forgets the current job. Nothing else changes.
   */
  function Skip(st: State): (r: State)
    requires st.session.details.Some?
    ensures var key := JobKey(st.session.details.value.jobId);
      && r.profile.applied == st.profile.applied + {key}
      && r.profile.skippedCount == st.profile.skippedCount + 1
      && r.profile.(applied := st.profile.applied, skippedCount := st.profile.skippedCount) == st.profile
    ensures r.session.currentJobId == None
    ensures r.session.(currentJobId := st.session.currentJobId) == st.session
  {
    var p := st.profile;
    var key := JobKey(st.session.details.value.jobId);
    State(
      p.(applied := p.applied + {key}, skippedCount := p.skippedCount + 1),
      st.session.(currentJobId := None))
  }

  /** Whether the review form belongs to a catalog job or to a job typed in by hand. */
  datatype Mode = CatalogJob | ManualJob

  /** The values in the review form when it is submitted (the user may have edited them). */
  datatype Form = Form(recipient: string, subject: string, body: string)

  /** What is handed to the mail sender. */
  datatype Message = Message(recipient: string, subject: string, body: string, attachments: seq<Attachment>)

  /** How a submission ended: refused before sending, rejected by the sender, or delivered. */
  datatype SendOutcome = NoAttachment | SendFailed(message: Message) | Delivered(message: Message)

  datatype SendStep = SendStep(outcome: SendOutcome, state: State)

  /** The form for `mode` can be shown: its job details and its draft are present. */
  predicate FormShown(s: Session, mode: Mode)
  {
    match mode
    case CatalogJob => s.details.Some? && s.generatedEmail.Some?
    case ManualJob => s.manualDetails.Some? && s.manualEmail.Some?
  }

  /** The values the review form is pre-filled with. */
  function FormDefaults(s: Session, mode: Mode): (f: Form)
    requires FormShown(s, mode)
  {
    match mode
    case CatalogJob =>
      Form(s.details.value.contactEmail, s.generatedEmail.value.subject, s.generatedEmail.value.body)
    case ManualJob =>
      var m := s.manualDetails.value;
      Form(m.contactEmail.GetOr([]), s.manualEmail.value.subject, s.manualEmail.value.body)
  }

  /** The job title written into the sent record: the row's title, or "Manual" when a manual job has none. */
  function TitleFor(s: Session, mode: Mode): (t: Cell)
    requires mode == CatalogJob ==> s.details.Some?
    requires mode == ManualJob ==> s.manualDetails.Some?
  {
    match mode
    case CatalogJob => s.details.value.jobTitle
    case ManualJob => s.manualDetails.value.jobTitle.GetOr(Str("Manual"))
  }

  /**
   * "Send Application". Without attachments the sender is not called and
   * nothing changes; when the sender fails nothing changes either, so the
   * draft stays for a retry. A delivered email always appends one record;
   * for a catalog job it also retires the job, counts the send and clears
   * the current job, while for a manual job it only clears the manual draft.
   */
  function Send(st: State, mode: Mode, form: Form, senderOk: bool): (r: SendStep)
    requires mode == CatalogJob ==> st.session.details.Some?
    requires mode == ManualJob ==> st.session.manualDetails.Some?
    ensures r.outcome.NoAttachment? <==> st.session.attachments == []
    ensures r.outcome.Delivered? <==> st.session.attachments != [] && senderOk
    ensures !r.outcome.NoAttachment? ==>
      r.outcome.message == Message(form.recipient, form.subject, form.body, st.session.attachments)
    ensures !r.outcome.Delivered? ==> r.state == st
    ensures r.outcome.Delivered? ==>
      r.state.profile.sentEmails
        == st.profile.sentEmails + [SentRecord(form.recipient, form.subject, form.body, TitleFor(st.session, mode))]
    ensures r.outcome.Delivered? && mode == CatalogJob ==>
      var p, p' := st.profile, r.state.profile;
      && p'.applied == p.applied + {JobKey(st.session.details.value.jobId)}
      && p'.sentCount == p.sentCount + 1
      && p'.skippedCount == p.skippedCount
      && p'.attachments == p.attachments && p'.cvText == p.cvText
      && r.state.session == st.session.(currentJobId := None)
    ensures r.outcome.Delivered? && mode == ManualJob ==>
      var p, p' := st.profile, r.state.profile;
      && p'.applied == p.applied
      && p'.sentCount == p.sentCount
      && p'.skippedCount == p.skippedCount
      && p'.attachments == p.attachments && p'.cvText == p.cvText
      && r.state.session == st.session.(manualEmail := None)
  {
    var s := st.session;
    if s.attachments == [] then SendStep(NoAttachment, st)
    else
      var message := Message(form.recipient, form.subject, form.body, s.attachments);
      if !senderOk then SendStep(SendFailed(message), st)
      else
        var record := SentRecord(form.recipient, form.subject, form.body, TitleFor(s, mode));
        var p := st.profile.(sentEmails := st.profile.sentEmails + [record]);
        match mode
        case CatalogJob =>
          var key := JobKey(s.details.value.jobId);
          SendStep(
            Delivered(message),
            State(p.(applied := p.applied + {key}, sentCount := p.sentCount + 1), s.(currentJobId := None)))
        case ManualJob =>
          SendStep(Delivered(message), State(p, s.(manualEmail := None)))
  }

  /** With no attachments the sender's answer is never consulted: both answers give the same step. */
  lemma NoAttachmentIgnoresSender(st: State, mode: Mode, form: Form)
    requires mode == CatalogJob ==> st.session.details.Some?
    requires mode == ManualJob ==> st.session.manualDetails.Some?
    requires st.session.attachments == []
    ensures Send(st, mode, form, true) == Send(st, mode, form, false)
    ensures Send(st, mode, form, true).state == st
  {
  }

  /** A manual send never touches the applied set or the skip counter, whatever the sender says. */
  lemma ManualSendKeepsCatalogProgress(st: State, form: Form, senderOk: bool)
    requires st.session.manualDetails.Some?
    ensures Send(st, ManualJob, form, senderOk).state.profile.applied == st.profile.applied
    ensures Send(st, ManualJob, form, senderOk).state.profile.skippedCount == st.profile.skippedCount
    ensures Send(st, ManualJob, form, senderOk).state.profile.sentCount == st.profile.sentCount
  {
  }

  // ---------------------------------------------------------------------
  // Uploading documents and reloading the profile
  // ---------------------------------------------------------------------

  /**
   * "Save New Files": the uploaded files, in order, replace the stored
   * attachments, and the first file's text chosen by the language check
   * becomes the CV text, both in the store and in the session.
   */
  function SaveFiles(st: State, files: seq<Attachment>, extracted: Option<string>, translated: Option<string>): (r: State)
    requires |files| >= 1
    ensures r.profile.attachments == files && r.session.attachments == files
    ensures r.profile.cvText == Cv.ChooseCvText(extracted, translated) == r.session.cvText
    ensures r.profile.(attachments := st.profile.attachments, cvText := st.profile.cvText) == st.profile
    ensures r.session.(attachments := st.session.attachments, cvText := st.session.cvText) == st.session
  {
    var cv := Cv.ChooseCvText(extracted, translated);
    State(
      st.profile.(attachments := files, cvText := cv),
      st.session.(attachments := files, cvText := cv))
  }

  /** Every page load copies the stored attachments and CV text into the session. */
  function Reload(st: State): (r: State)
    ensures r.session.attachments == st.profile.attachments && r.session.cvText == st.profile.cvText
    ensures r.profile == st.profile
    ensures r.session.(attachments := st.session.attachments, cvText := st.session.cvText) == st.session
  {
    State(st.profile, st.session.(attachments := st.profile.attachments, cvText := st.profile.cvText))
  }

  // ---------------------------------------------------------------------
  // One page run of the Job Finder, and the whole machine
  // ---------------------------------------------------------------------

  /** The button pressed during a Job Finder run, if any. */
  datatype FinderAction = View | Prepare(response: Option<string>) | SkipShown | SendShown(form: Form, senderOk: bool)

  /**
   * One run of the Job Finder page: select the next job, then act on the
   * pressed button. With no job left there are no buttons. The review form,
   * and so its send button, exists only once a draft has been prepared.
   */
  function FinderRun(rows: Table, st: State, action: FinderAction): (r: State)
    requires Coherent(st.session)
    ensures NextJob(rows, st.profile.applied).None? ==> r == st
    ensures action.View? ==> r == State(st.profile, ShowNextJob(rows, st.profile, st.session))
    ensures action.Prepare? && NextJob(rows, st.profile.applied).Some? ==>
      r == State(st.profile, PrepareDraft(ShowNextJob(rows, st.profile, st.session), action.response))
    ensures action.SkipShown? && NextJob(rows, st.profile.applied).Some? ==>
      r == Skip(State(st.profile, ShowNextJob(rows, st.profile, st.session)))
    ensures action.SendShown? && NextJob(rows, st.profile.applied).Some? ==>
      var shown := State(st.profile, ShowNextJob(rows, st.profile, st.session));
      r == if shown.session.generatedEmail.Some? then Send(shown, CatalogJob, action.form, action.senderOk).state else shown
  {
    match NextJob(rows, st.profile.applied)
    case None => st
    case Some(j) =>
      var shown := State(st.profile, SelectJob(st.session, j, rows[j]));
      match action
      case View => shown
      case Prepare(response) => State(shown.profile, PrepareDraft(shown.session, response))
      case SkipShown => Skip(shown)
      case SendShown(form, ok) =>
        if shown.session.generatedEmail.Some? then Send(shown, CatalogJob, form, ok).state else shown
  }

  /** Showing the Job Finder again without pressing anything changes nothing more: a draft survives re-rendering. */
  lemma ViewIdempotent(rows: Table, st: State)
    requires Coherent(st.session)
    ensures FinderRun(rows, FinderRun(rows, st, View), View) == FinderRun(rows, st, View)
  {
  }

  /** Skipping the shown job takes exactly that job out of the pending ones and counts one skip. */
  lemma SkipRetiresShownJob(rows: Table, st: State, j: nat)
    requires Coherent(st.session)
    requires NextJob(rows, st.profile.applied) == Some(j)
    ensures var r := FinderRun(rows, st, SkipShown);
      && PendingSet(rows, r.profile.applied) == PendingSet(rows, st.profile.applied) - {j}
      && r.profile.skippedCount == st.profile.skippedCount + 1
      && NextJob(rows, r.profile.applied) != Some(j)
  {
    RetireExactlyOne(rows, st.profile.applied, j);
  }

  /**
   * A delivered catalog send retires exactly the shown job, appends one
   * record and counts one send; a failed one leaves the profile alone and
   * the draft in place.
   */
  lemma SendShownOutcome(rows: Table, st: State, j: nat, form: Form, ok: bool)
    requires NextJob(rows, st.profile.applied) == Some(j)
    requires Coherent(st.session)
    requires st.session.currentJobId == Some(j) && st.session.generatedEmail.Some?
    ensures var r := FinderRun(rows, st, SendShown(form, ok));
      if ok && st.session.attachments != [] then
        && PendingSet(rows, r.profile.applied) == PendingSet(rows, st.profile.applied) - {j}
        && r.profile.sentCount == st.profile.sentCount + 1
        && r.profile.sentEmails == st.profile.sentEmails
             + [SentRecord(form.recipient, form.subject, form.body, st.session.details.value.jobTitle)]
        && r.session.currentJobId == None
      else
        r == st
  {
    RetireExactlyOne(rows, st.profile.applied, j);
  }

  /** Skipping the same job twice retires nothing new, but the skip counter counts both presses. */
  lemma SkipTwice(st: State)
    requires st.session.details.Some?
    ensures Skip(Skip(st)).profile.applied == Skip(st).profile.applied
    ensures Skip(Skip(st)).profile.skippedCount == st.profile.skippedCount + 2
  {
  }

  /** The events of the model: a Job Finder run, a manual send, saving files, a page load. */
  datatype Event =
    | Finder(action: FinderAction)
    | ManualSend(form: Form, senderOk: bool)
    | Upload(files: seq<Attachment>, extracted: Option<string>, translated: Option<string>)
    | PageLoad

  /** What the source needs before an event can happen. */
  predicate Enabled(st: State, e: Event)
  {
    match e
    case Finder(_) => Coherent(st.session)
    case ManualSend(_, _) => FormShown(st.session, ManualJob)
    case Upload(files, _, _) => |files| >= 1
    case PageLoad => true
  }

  function Step(rows: Table, st: State, e: Event): State
    requires Enabled(st, e)
  {
    match e
    case Finder(action) => FinderRun(rows, st, action)
    case ManualSend(form, ok) => Send(st, ManualJob, form, ok).state
    case Upload(files, extracted, translated) => SaveFiles(st, files, extracted, translated)
    case PageLoad => Reload(st)
  }

  /** The keys of all rows of the table. */
  function TableKeys(rows: Table): set<string>
  {
    set j: nat | j < |rows| :: JobKey(j)
  }

  /**
   * The state invariant: every send is recorded, each skip or send retires
   * at most one key, only keys of rows are retired, and the current job is
   * a pending row whose details are the session's.
   */
  predicate Valid(rows: Table, st: State)
  {
    var p, s := st.profile, st.session;
    && p.sentCount <= |p.sentEmails|
    && |p.applied| <= p.sentCount + p.skippedCount
    && p.applied <= TableKeys(rows)
    && (s.details.Some? ==>
          var d := s.details.value;
          d.jobId < |rows| && d == DetailsFor(d.jobId, rows[d.jobId]))
    && Coherent(s)
    && (s.currentJobId.Some? ==> Pending(rows, p.applied, s.currentJobId.value))
  }

  lemma InitialValid(rows: Table)
    ensures Valid(rows, State(EmptyProfile, InitialSession))
  {
  }

  /** Adding one key grows a set by at most one. */
  lemma AddOneKey(a: set<string>, k: string)
    ensures |a + {k}| <= |a| + 1
  {
    if k in a {
      assert a + {k} == a;
    }
  }

  /** Retiring the current job's key keeps the invariant when one skip or send is counted with it. */
  lemma RetireKeepsValid(rows: Table, st: State, st': State)
    requires Valid(rows, st) && st.session.details.Some?
    requires var p, p' := st.profile, st'.profile;
      && p'.applied == p.applied + {JobKey(st.session.details.value.jobId)}
      && p'.sentCount + p'.skippedCount == p.sentCount + p.skippedCount + 1
      && p.sentCount <= p'.sentCount
      && p'.sentCount <= |p'.sentEmails|
    requires st'.session == st.session.(currentJobId := None)
    ensures Valid(rows, st')
  {
    var j := st.session.details.value.jobId;
    assert JobKey(j) in TableKeys(rows);
    AddOneKey(st.profile.applied, JobKey(j));
  }

  lemma FinderRunPreservesValid(rows: Table, st: State, action: FinderAction)
    requires Valid(rows, st)
    ensures Valid(rows, FinderRun(rows, st, action))
  {
    match NextJob(rows, st.profile.applied)
    case None =>
    case Some(j) =>
      var shown := State(st.profile, SelectJob(st.session, j, rows[j]));
      assert Valid(rows, shown);
      match action
      case View =>
      case Prepare(response) =>
        assert Valid(rows, State(shown.profile, PrepareDraft(shown.session, response)));
      case SkipShown =>
        RetireKeepsValid(rows, shown, Skip(shown));
      case SendShown(form, ok) =>
        if shown.session.generatedEmail.Some? {
          var r := Send(shown, CatalogJob, form, ok);
          if r.outcome.Delivered? {
            RetireKeepsValid(rows, shown, r.state);
          }
        }
  }

  /**
   * In a valid state the review form of a catalog job opens addressed to
   * the job row's normalised contact, which holds no comma.
   */
  lemma DefaultRecipientIsRowContact(rows: Table, st: State)
    requires Valid(rows, st) && FormShown(st.session, CatalogJob)
    ensures var d := st.session.details.value;
      && FormDefaults(st.session, CatalogJob).recipient == NormaliseContact(rows[d.jobId].contactEmail)
      && ',' !in FormDefaults(st.session, CatalogJob).recipient
  {
  }

  /** Every event keeps the invariant. */
  lemma StepPreservesValid(rows: Table, st: State, e: Event)
    requires Valid(rows, st) && Enabled(st, e)
    ensures Valid(rows, Step(rows, st, e))
  {
    match e
    case Finder(action) => FinderRunPreservesValid(rows, st, action);
    case ManualSend(_, _) =>
    case Upload(_, _, _) =>
    case PageLoad =>
  }

  /** `p'` keeps everything `p` has achieved: retired jobs, counters, sent records. */
  predicate Grows(p: Profile, p': Profile)
  {
    && p.applied <= p'.applied
    && p.sentCount <= p'.sentCount
    && p.skippedCount <= p'.skippedCount
    && |p.sentEmails| <= |p'.sentEmails|
    && p'.sentEmails[..|p.sentEmails|] == p.sentEmails
  }

  lemma SendGrows(st: State, mode: Mode, form: Form, ok: bool)
    requires mode == CatalogJob ==> st.session.details.Some?
    requires mode == ManualJob ==> st.session.manualDetails.Some?
    ensures Grows(st.profile, Send(st, mode, form, ok).state.profile)
  {
    var p' := Send(st, mode, form, ok).state.profile;
    assert p'.sentEmails[..|st.profile.sentEmails|] == st.profile.sentEmails;
  }

  lemma GrowsWhenSentKept(p: Profile, p': Profile)
    requires p'.sentEmails == p.sentEmails
    requires p.applied <= p'.applied && p.sentCount <= p'.sentCount && p.skippedCount <= p'.skippedCount
    ensures Grows(p, p')
  {
    assert p.sentEmails[..|p.sentEmails|] == p.sentEmails;
  }

  lemma FinderRunGrows(rows: Table, st: State, action: FinderAction)
    requires Coherent(st.session)
    ensures Grows(st.profile, FinderRun(rows, st, action).profile)
  {
    match NextJob(rows, st.profile.applied)
    case None => GrowsWhenSentKept(st.profile, st.profile);
    case Some(j) =>
      var shown := State(st.profile, SelectJob(st.session, j, rows[j]));
      match action
      case View => GrowsWhenSentKept(st.profile, st.profile);
      case Prepare(_) => GrowsWhenSentKept(st.profile, st.profile);
      case SkipShown => GrowsWhenSentKept(st.profile, Skip(shown).profile);
      case SendShown(form, ok) =>
        if shown.session.generatedEmail.Some? {
          SendGrows(shown, CatalogJob, form, ok);
        } else {
          GrowsWhenSentKept(st.profile, st.profile);
        }
  }

  /**
   * Progress is never undone: retired jobs stay retired, the counters never
   * go down and sent records are only ever appended.
   */
  lemma StepMonotone(rows: Table, st: State, e: Event)
    requires Enabled(st, e)
    ensures Grows(st.profile, Step(rows, st, e).profile)
  {
    match e
    case Finder(action) => FinderRunGrows(rows, st, action);
    case ManualSend(form, ok) => SendGrows(st, ManualJob, form, ok);
    case Upload(files, extracted, translated) =>
      GrowsWhenSentKept(st.profile, SaveFiles(st, files, extracted, translated).profile);
    case PageLoad => GrowsWhenSentKept(st.profile, st.profile);
  }
}
