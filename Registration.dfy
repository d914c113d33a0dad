/** The decision and state logic of RegisterScreen.py: when a captured frame
    is kept, when submitting starts a registration and with which overwrite
    flag, and what completing the registration clears. Widgets, the camera
    and message boxes are not modelled; the user's answer to the overwrite
    question is a parameter. */
module Registration {
  import opened Wrappers
  import opened Features
  import opened Extraction
  import Store

  /** How submit_data ends: a warning, an exception from user_exists, the
      cancelled overwrite, or a started extraction thread. */
  datatype SubmitOutcome =
    | MissingInput
    | LookupRaised(cause: Store.StoreError)
    | NoFrameCaptured
    | WrongPassword
    | OverwriteDeclined
    | Register(overwrite: bool)

  /** submit_data: empty fields stop before any lookup; the lookup runs
      before the frame check; an existing name needs the right password and
      a "Yes" to be overwritten; a new name is registered without
      overwrite. `b.checkpw(password, stored)` is verify_password. */
  function SubmitDecision(name: string, password: string, lookup: Result<Option<Store.Credentials>, Store.StoreError>,
                          hasFrame: bool, b: Store.Bcrypt, confirmed: bool): (r: SubmitOutcome)
    ensures r == MissingInput <==> name == "" || password == ""
    ensures r == Register(true) <==>
      && name != "" && password != "" && hasFrame
      && lookup.Ok? && lookup.value.Some?
      && b.checkpw(password, lookup.value.value.password)
      && confirmed
    ensures r == Register(false) <==> name != "" && password != "" && hasFrame && lookup == Ok(None)
    ensures r.Register? ==> hasFrame && lookup.Ok?
    ensures r == WrongPassword <==>
      name != "" && password != "" && hasFrame && lookup.Ok? && lookup.value.Some?
      && !b.checkpw(password, lookup.value.value.password)
  {
    if name == "" || password == "" then MissingInput
    else
      match lookup
      case Err(e) => LookupRaised(e)
      case Ok(existing) =>
        if !hasFrame then NoFrameCaptured
        else
          match existing
          case None => Register(false)
          case Some(c) =>
            if b.checkpw(password, c.password) then
              if confirmed then Register(true) else OverwriteDeclined
            else WrongPassword
  }

  /** Whoever registered a new name can overwrite it later: the row added by
      register_user is the one user_exists finds, and its stored hash
      verifies the same password. */
  lemma OwnerCanOverwrite(b: Store.Bcrypt, rows: seq<Store.User>, id: nat, name: string, password: string,
                          salt: string, featureVector: string)
    requires Store.BcryptLaws(b) && name != "" && password != ""
    requires Store.Lookup(rows, name).None?
    ensures var rows' := rows + [Store.User(id, name, b.hashpw(password, salt), featureVector)];
      SubmitDecision(name, password, Ok(Store.Lookup(rows', name)), true, b, true) == Register(true)
  {
    Store.InsertedIsFound(b, rows, id, name, password, salt, featureVector);
  }

  /** After an overwrite the name still exists, so registering it again
      with the new password is once more an overwrite, never a fresh row. */
  lemma OverwriteKeepsOwnership(b: Store.Bcrypt, rows: seq<Store.User>, name: string, password: string,
                                salt: string, featureVector: string)
    requires Store.BcryptLaws(b) && name != "" && password != ""
    requires Store.Lookup(rows, name).Some?
    ensures var rows' := Store.Overwritten(rows, name, b.hashpw(password, salt), featureVector);
      SubmitDecision(name, password, Ok(Store.Lookup(rows', name)), true, b, true) == Register(true)
  {
    Store.OverwriteThenLookup(rows, name, b.hashpw(password, salt), featureVector);
  }

  class RegisterScreen {
    const ui: Identifier
    const db: Store.DatabaseManager

    /** The frame kept for registration, or None. */
    var capturedFrame: Option<Frame>

    /** The running extraction thread, or None. */
    var thread: Option<ExtractionThread>

    constructor (ui: Identifier, db: Store.DatabaseManager)
      ensures this.ui == ui && this.db == db
      ensures capturedFrame == None && thread == None
    {
      this.ui := ui;
      this.db := db;
      capturedFrame := None;
      thread := None;
    }

    /** process_captured_frame: the frame is kept only when draw_landmarks
        found exactly one face, and what is kept is the frame with the
        landmarks drawn on it (draw_landmarks paints the caller's frame);
        otherwise the kept frame is cleared and the exception's message is
        shown. */
    method ProcessCapturedFrame(frame: Frame) returns (shown: Result<Frame, FaceError>)
      modifies this`capturedFrame
      ensures shown == Drawn(ui, frame)
      ensures capturedFrame == (if shown.Ok? then Some(shown.value) else None)
      ensures capturedFrame.Some? <==> |Faces(ui, frame)| == 1
      ensures capturedFrame.Some? ==> capturedFrame.value == DrawnOn(ui.circle, frame, LandmarksOf(ui, frame).value)
    {
      shown := DrawLandmarks(ui, frame);
      match shown
      case Ok(drawn) =>
        capturedFrame := Some(drawn);
      case Err(_) =>
        capturedFrame := None;
    }

    /** start_feature_extraction_thread: starts a thread on the kept frame,
        or nothing when there is none. */
    method StartFeatureExtractionThread(name: string, password: string, overwrite: bool) returns (started: bool)
      modifies this`thread
      ensures started <==> capturedFrame.Some?
      ensures started ==> thread == Some(ExtractionThread(name, password, capturedFrame.value, overwrite))
      ensures !started ==> thread == old(thread)
    {
      if capturedFrame.Some? {
        thread := Some(ExtractionThread(name, password, capturedFrame.value, overwrite));
        return true;
      }
      return false;
    }

    /** submit_data against the screen's store; `confirmed` is the answer
        to the overwrite question, read only when it is asked, and `fault`
        a sqlite3 error of user_exists' SELECT. */
    method SubmitData(name: string, password: string, confirmed: bool, fault: bool) returns (outcome: SubmitOutcome)
      requires db.Valid()
      modifies this`thread, db`file
      ensures db.Valid() && db.rows == old(db.rows) && db.lastId == old(db.lastId)
      ensures name == "" || password == "" ==> outcome == MissingInput && db.file == old(db.file)
      ensures name != "" && password != "" ==>
        && outcome == SubmitDecision(name, password, Store.LookupResult(db.cipher, old(db.file), db.rows, name, fault),
                                     capturedFrame.Some?, db.bcrypt, confirmed)
        && db.file == Store.FileAfterRead(db.cipher, old(db.file), fault)
      ensures outcome.Register? ==> thread == Some(ExtractionThread(name, password, capturedFrame.value, outcome.overwrite))
      ensures !outcome.Register? ==> thread == old(thread)
    {
      if name == "" || password == "" {
        return MissingInput;
      }
      var existing := db.UserExists(name, fault);
      if existing.Err? {
        return LookupRaised(existing.error);
      }
      if capturedFrame.None? {
        return NoFrameCaptured;
      }
      match existing.value
      case None =>
        var _ := StartFeatureExtractionThread(name, password, false);
        return Register(false);
      case Some(credentials) =>
        if db.VerifyPassword(credentials.password, password) {
          if confirmed {
            var _ := StartFeatureExtractionThread(name, password, true);
            return Register(true);
          }
          return OverwriteDeclined;
        }
        return WrongPassword;
    }

    /** on_extraction_complete: shows the thread's message and clears both
        the thread and the kept frame. */
    method OnExtractionComplete(result: string) returns (shown: string)
      modifies this
      ensures shown == result
      ensures thread == None && capturedFrame == None
    {
      shown := result;
      thread := None;
      capturedFrame := None;
    }
  }
}
