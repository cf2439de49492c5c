/**
 * The two places where the editor decides whether extracted data leaves the
 * page: `submitResume`, which posts the draft to the server, and the
 * auto-save timer started by `startAutoSave`, which caches it in local
 * storage. `fetch` and the server's answer become a `Transport` input.
 */
module ClientGates {
  import opened Wrappers
  import opened JsString
  import opened HeaderPatterns
  import opened Extraction

  /** `submitResume` goes on only if the draft exists and its name and
      email are not empty. */
  predicate PassesSubmitGate(d: Option<Draft>) {
    d.Some? && d.value.name != "" && d.value.email != ""
  }

  /** The auto-save timer stores the draft only if it exists and its name
      is not empty. */
  predicate PassesAutoSaveGate(d: Option<Draft>) {
    d.Some? && d.value.name != ""
  }

  /** The header text begins with a run free of line feeds and bars that
      holds nothing but white space: the only way to get an empty name
      (a text without such a run gets "Unknown"). */
  ghost predicate BlankLeadingRun(text: string) {
    text != [] && IsNameChar(text[0]) && forall i :: 0 <= i < NameEnd(text, 0) ==> IsSpace(text[i])
  }

  ghost predicate HasEmailShapedPart(text: string) {
    exists p, e :: 0 <= p <= e <= |text| && EmailShaped(text[p..e])
  }

  lemma NameEmptyIffBlankRun(text: string)
    ensures NameOf(text) == "" <==> BlankLeadingRun(text)
  {
    match MatchName(text)
    case None =>
    case Some(m) =>
      TrimEmpty(m);
      assert AllSpace(m) <==> forall i :: 0 <= i < NameEnd(text, 0) ==> IsSpace(text[i]) by {
        assert forall i :: 0 <= i < |m| ==> m[i] == text[i];
      }
  }

  /** The submit gate in terms of the header text: there is a header, its
      leading run is not blank, and some part of it is email-shaped. A
      header that starts with a bar or a line feed passes with the name
      "Unknown". */
  lemma SubmitGateOnHeader(header: Option<string>, markup: string, template: string, now: string)
    ensures PassesSubmitGate(ExtractPersonalInfo(header, markup, template, now)) <==>
      header.Some? && !BlankLeadingRun(header.value) && HasEmailShapedPart(header.value)
  {
    if header.Some? {
      NameEmptyIffBlankRun(header.value);
      EmailIsFirstMatch(header.value);
    }
  }

  /** The auto-save gate in terms of the header text. */
  lemma AutoSaveGateOnHeader(header: Option<string>, markup: string, template: string, now: string)
    ensures PassesAutoSaveGate(ExtractPersonalInfo(header, markup, template, now)) <==>
      header.Some? && !BlankLeadingRun(header.value)
  {
    if header.Some? {
      NameEmptyIffBlankRun(header.value);
    }
  }

  /** What `fetch` and `response.json()` deliver: the response's `ok` flag
      and its `error` field ("" when absent), or a rejection (network
      failure or a body that is not JSON). */
  datatype Transport = Answered(ok: bool, error: string) | NetworkError

  const GateMessage := "Please make sure your resume has a header with name and email"
  const BusyLabel := "Submitting..."

  /** The message and its kind that `submitResume` shows once the request
      has been issued. */
  function OutcomeMessage(net: Transport): (shown: (string, string))
    ensures shown.1 == "success" <==> net.Answered? && net.ok
    ensures net.Answered? && !net.ok && net.error != "" ==> shown.0 == net.error
  {
    match net
    case Answered(ok, error) =>
      if ok then ("Resume submitted successfully!", "success")
      else if error != "" then (error, "error")
      else ("Failed to submit resume", "error")
    case NetworkError => ("Network error. Please try again.", "error")
  }

  /** The submit button and the message area of the page. */
  class Page {
    var buttonText: string
    var buttonDisabled: bool
    var message: string
    var messageKind: string

    constructor(caption: string)
      ensures buttonText == caption && !buttonDisabled && message == "" && messageKind == ""
    {
      buttonText, buttonDisabled := caption, false;
      message, messageKind := "", "";
    }

    /** `showMessage`; hiding the message after five seconds is not modelled. */
    method ShowMessage(text: string, kind: string)
      modifies this
      ensures message == text && messageKind == kind
      ensures buttonText == old(buttonText) && buttonDisabled == old(buttonDisabled)
    {
      message, messageKind := text, kind;
    }

    /** `submitResume` as written. The `finally` block reads `originalText`,
        a `const` declared inside the `try` block and so not in scope there:
        every call ends in a ReferenceError (`threw`) before the button is
        touched, and after a request the button keeps its busy label and
        stays disabled. */
    method SubmitResumeAsWritten(header: Option<string>, markup: string, template: string, now: string, net: Transport)
      returns (request: Option<Draft>, threw: bool)
      modifies this
      ensures var d := ExtractPersonalInfo(header, markup, template, now);
        && request == (if PassesSubmitGate(d) then d else None)
        && (!PassesSubmitGate(d) ==> message == GateMessage && messageKind == "error"
                                     && buttonText == old(buttonText) && buttonDisabled == old(buttonDisabled))
        && (PassesSubmitGate(d) ==> (message, messageKind) == OutcomeMessage(net)
                                    && buttonText == BusyLabel && buttonDisabled)
      ensures threw
    {
      var info := ExtractPersonalInfo(header, markup, template, now);
      if !PassesSubmitGate(info) {
        ShowMessage(GateMessage, "error");
        request := None;
      } else {
        buttonText := BusyLabel;
        buttonDisabled := true;
        request := info;
        var shown := OutcomeMessage(net);
        ShowMessage(shown.0, shown.1);
      }
      // finally: `submitBtn.textContent = originalText` throws.
      threw := true;
    }

    /** `submitResume` with the label saved before the `try` block, as the
        "Restore button state" comment intends: the same request and
        message, and the button gets its label back and is enabled again on
        every path. */
    method SubmitResume(header: Option<string>, markup: string, template: string, now: string, net: Transport)
      returns (request: Option<Draft>)
      modifies this
      ensures var d := ExtractPersonalInfo(header, markup, template, now);
        && request == (if PassesSubmitGate(d) then d else None)
        && (!PassesSubmitGate(d) ==> message == GateMessage && messageKind == "error")
        && (PassesSubmitGate(d) ==> (message, messageKind) == OutcomeMessage(net))
      ensures buttonText == old(buttonText) && !buttonDisabled
    {
      var originalText := buttonText;
      var info := ExtractPersonalInfo(header, markup, template, now);
      if !PassesSubmitGate(info) {
        ShowMessage(GateMessage, "error");
        request := None;
      } else {
        buttonText := BusyLabel;
        buttonDisabled := true;
        request := info;
        var shown := OutcomeMessage(net);
        ShowMessage(shown.0, shown.1);
      }
      buttonText := originalText;
      buttonDisabled := false;
    }
  }

  const DraftKey := "resumeDraft"

  /** Local storage and the single auto-save timer. */
  class DraftCache {
    var storage: map<string, Draft>
    var timerPending: bool

    constructor(stored: map<string, Draft>)
      ensures storage == stored && !timerPending
    {
      storage, timerPending := stored, false;
    }

    /** `startAutoSave`: the pending timer, if any, is cleared and a new one
        set, so exactly one is pending. */
    method StartAutoSave()
      modifies this
      ensures timerPending && storage == old(storage)
    {
      timerPending := true;
    }

    /** The timer callback: the draft overwrites the single key
        "resumeDraft" when it has a name; otherwise storage is unchanged.
        `setItem` can refuse the write (`storageFails`, a draft over the
        quota): storage is then unchanged and the callback ends in an
        uncaught error (`threw`). */
    method TimerFires(header: Option<string>, markup: string, template: string, now: string, storageFails: bool)
      returns (threw: bool)
      requires timerPending
      modifies this
      ensures !timerPending
      ensures var d := ExtractPersonalInfo(header, markup, template, now);
        && threw == (PassesAutoSaveGate(d) && storageFails)
        && storage == if PassesAutoSaveGate(d) && !storageFails then old(storage)[DraftKey := d.value] else old(storage)
    {
      var info := ExtractPersonalInfo(header, markup, template, now);
      threw := false;
      if PassesAutoSaveGate(info) {
        if storageFails {
          threw := true;
        } else {
          storage := storage[DraftKey := info.value];
        }
      }
      timerPending := false;
    }
  }
}
