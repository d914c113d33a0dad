/** FeatureExtractionThread.run: extract the captured frame's vector, hand
    it comma-joined to register_user, and emit exactly one message on
    `extraction_complete`. */
module Extraction {
  import opened Wrappers
  import opened Serial
  import opened Features
  import Store

  /** The arguments the thread is constructed with. */
  datatype ExtractionThread = ExtractionThread(name: string, password: string, capturedFrame: Frame, overwrite: bool)

  /** The arguments of a register_user call. */
  datatype RegisterCall = RegisterCall(name: string, password: string, featureVector: string, overwrite: bool)

  /** What run does: at most one register_user call, and the message it
      emits. */
  datatype Trace = Trace(call: Option<RegisterCall>, message: string)

  /** Every error message starts with this. The messages are written as
      short pieces joined together, so that MessagesDistinct can read
      their first characters without unfolding a long literal. */
  const ErrorWord: string := "Error"

  const NoFeaturesMessage: string := ErrorWord + ": " + "Unable to detect face or extract features."
  const SaveFailedMessage: string := ErrorWord + ": " + "Failed to save user data to database."

  function SuccessMessage(name: string): string {
    "User " + name + " registered successfully!"
  }

  /** The message of an exception raised by the extractor; `str(e)` is the
      text the exception was raised with. */
  function ExceptionMessage(e: FaceError): string {
    ErrorWord + " " + "during feature extraction or database save: " + e.Message()
  }

  /** run, given what the extractor produced and what register_user would
      return: an exception becomes a message, an empty vector registers
      nothing, anything else registers once with the thread's own flag. */
  function Run(t: ExtractionThread, f: FloatText, extraction: Result<seq<real>, FaceError>, registered: bool): (r: Trace)
    ensures r.call.Some? <==> extraction.Ok? && |extraction.value| > 0
    ensures r.call.Some? ==>
      r.call.value == RegisterCall(t.name, t.password, EncodeVector(f, extraction.value), t.overwrite)
    ensures r.message == SuccessMessage(t.name) <==> r.call.Some? && registered
    ensures r.message == SaveFailedMessage <==> r.call.Some? && !registered
    ensures r.message == NoFeaturesMessage <==> extraction.Ok? && |extraction.value| == 0
    ensures extraction.Err? ==> r.message == ExceptionMessage(extraction.error)
  {
    MessagesDistinct(t.name);
    match extraction
    case Err(e) => Trace(None, ExceptionMessage(e))
    case Ok(v) =>
      if |v| == 0 then Trace(None, NoFeaturesMessage)
      else
        Trace(Some(RegisterCall(t.name, t.password, EncodeVector(f, v), t.overwrite)),
              if registered then SuccessMessage(t.name) else SaveFailedMessage)
  }

  /** The four kinds of message never coincide, so the message alone tells
      which way run went. */
  lemma MessagesDistinct(name: string)
    ensures SuccessMessage(name) != NoFeaturesMessage && SuccessMessage(name) != SaveFailedMessage
    ensures NoFeaturesMessage != SaveFailedMessage
    ensures forall e: FaceError :: ExceptionMessage(e) != SuccessMessage(name)
    ensures forall e: FaceError :: ExceptionMessage(e) != NoFeaturesMessage && ExceptionMessage(e) != SaveFailedMessage
  {
    assert |ErrorWord| == 5;
    assert SuccessMessage(name)[0] == 'U';
    assert NoFeaturesMessage[0] == 'E' && SaveFailedMessage[0] == 'E';
    assert NoFeaturesMessage[7] == 'U' && SaveFailedMessage[7] == 'F';
    forall e: FaceError
      ensures ExceptionMessage(e) != SuccessMessage(name)
      ensures ExceptionMessage(e) != NoFeaturesMessage && ExceptionMessage(e) != SaveFailedMessage
    {
      assert ExceptionMessage(e)[0] == 'E' && ExceptionMessage(e)[5] == ' ';
      assert NoFeaturesMessage[5] == ':' && SaveFailedMessage[5] == ':';
    }
  }

  /** The string handed to register_user parses back, token by token, to
      the extracted vector as floats. */
  lemma StoredVectorDecodes(t: ExtractionThread, f: FloatText, extraction: Result<seq<real>, FaceError>, registered: bool)
    requires FloatTextLaws(f)
    requires Run(t, f, extraction, registered).call.Some?
    ensures extraction.Ok?
    ensures DecodeVector(f, Run(t, f, extraction, registered).call.value.featureVector) == Some(Rounded(f, extraction.value))
  {
    DecodeEncode(f, extraction.value);
  }

  /** With the real extractor the empty-vector branch is dead: a frame
      either raises or yields 176 numbers, and the register call happens
      exactly when the frame shows one face. */
  lemma ExtractorNeverEmpty(t: ExtractionThread, ui: Identifier, f: FloatText, registered: bool)
    requires Extractable(ui, t.capturedFrame)
    ensures Run(t, f, Extracted(ui, t.capturedFrame), registered).message != NoFeaturesMessage
    ensures Run(t, f, Extracted(ui, t.capturedFrame), registered).call.Some? <==> |Faces(ui, t.capturedFrame)| == 1
  {
  }

  /** run against a store: the extractor runs on the captured frame, then
      register_user (with its own fresh salt and the store's possible
      fault) only when a vector came back. */
  method RunThread(t: ExtractionThread, ui: Identifier, db: Store.DatabaseManager, f: FloatText, salt: string, fault: bool)
    returns (message: string)
    requires Extractable(ui, t.capturedFrame) && db.Valid()
    modifies db
    ensures db.Valid()
    ensures var registered := Store.Runs(Store.Open(db.cipher, old(db.file))) && !fault;
      var trace := Run(t, f, Extracted(ui, t.capturedFrame), registered);
      && message == trace.message
      && (trace.call.None? || !registered ==> db.rows == old(db.rows) && db.lastId == old(db.lastId))
      && (trace.call.None? ==> db.file == old(db.file))
      && (trace.call.Some? && registered ==> db.file == Store.Present(db.cipher.encrypt(db.image(db.rows))))
      && (trace.call.Some? && !registered ==> db.file == Store.Open(db.cipher, old(db.file)).file)
      && (trace.call.Some? && registered && !t.overwrite ==>
           && db.lastId == old(db.lastId) + 1
           && db.rows == old(db.rows) + [Store.User(db.lastId, t.name, db.HashPassword(t.password, salt), trace.call.value.featureVector)])
      && (trace.call.Some? && registered && t.overwrite ==>
           db.rows == Store.Overwritten(old(db.rows), t.name, db.HashPassword(t.password, salt), trace.call.value.featureVector))
  {
    var extraction := ExtractFeatureVector(ui, t.capturedFrame);
    if extraction.Err? {
      message := ExceptionMessage(extraction.error);
      return;
    }
    var featureVector := extraction.value;
    if |featureVector| == 0 {
      message := NoFeaturesMessage;
      return;
    }
    var featureVectorStr := EncodeVector(f, featureVector);
    ghost var registered := Store.Runs(Store.Open(db.cipher, db.file)) && !fault;
    ghost var trace := Run(t, f, extraction, registered);
    assert trace.call == Some(RegisterCall(t.name, t.password, featureVectorStr, t.overwrite));
    var result := db.RegisterUser(t.name, t.password, featureVectorStr, t.overwrite, salt, fault);
    assert result == registered;
    if result {
      message := SuccessMessage(t.name);
    } else {
      message := SaveFailedMessage;
    }
  }
}
