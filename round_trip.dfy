/**
 * The editor and the server together: what a fresh server answers to the
 * requests the editor sends, and a few header texts whose extracted fields
 * show the edge cases of the parser.
 */
module RoundTrip {
  import opened Wrappers
  import opened Extraction
  import opened ClientGates
  import opened ResumeServer

  /** The body `JSON.stringify(personalInfo)` sends: every field of the
      draft is a string (`created_at` is sent too and ignored). */
  function RequestBody(d: Draft): Fields
  {
    Fields(Some(d.name), Some(d.email), Some(d.phone), Some(d.city), Some(d.country),
           Some(d.resumeContent), Some(d.template))
  }

  /** The editor's gate and the server's 400 check agree on every draft:
      the editor posts a draft exactly when the server would accept its
      name and email. */
  lemma GateAgreesWithServer(d: Draft)
    ensures PassesSubmitGate(Some(d)) <==> Present(RequestBody(d).name) && Present(RequestBody(d).email)
  {
  }

  /** A draft the editor submits to a fresh server is stored as row 1 and
      read back unchanged. */
  method SubmitThenFetch(d: Draft) returns (posted: Reply, fetched: Reply)
    requires PassesSubmitGate(Some(d))
    ensures posted == Reply(200, Saved("Resume saved successfully", 1))
    ensures fetched.status == 200 && fetched.body.OneRow?
    ensures fetched.body.row.fields == RequestBody(d) && fetched.body.row.id == 1
  {
    var store := new ResumeStore();
    GateAgreesWithServer(d);
    posted := store.PostResume(RequestBody(d), false);
    fetched := store.GetResume(1, false);
  }

  /** A PUT stores whatever it is given, even without a name or an email,
      keeps `created_at`, and stamps `updated_at` only when something
      changed. */
  method UpdateThenFetch(first: Fields, second: Fields) returns (updated: Reply, fetched: Reply)
    requires Present(first.name) && Present(first.email)
    ensures updated == Reply(200, Done("Resume updated successfully"))
    ensures fetched == Reply(200, OneRow(Row(1, second, 0, if second == first then 0 else 1)))
  {
    var store := new ResumeStore();
    var posted := store.PostResume(first, false);
    store.Tick(1);
    updated := store.PutResume(1, second, false);
    fetched := store.GetResume(1, false);
  }

  /** A PUT or a DELETE of an id that does not exist still succeeds. */
  method MissingIdStillSucceeds(id: int, fields: Fields) returns (updated: Reply, deleted: Reply, fetched: Reply)
    ensures updated == Reply(200, Done("Resume updated successfully"))
    ensures deleted == Reply(200, Done("Resume deleted successfully"))
    ensures fetched == Reply(404, ErrorBody("Resume not found"))
  {
    var store := new ResumeStore();
    updated := store.PutResume(id, fields, false);
    deleted := store.DeleteResume(id, false);
    fetched := store.GetResume(id, false);
  }

  /** Deleting the same row twice succeeds both times; afterwards the row
      is gone. */
  method DeleteTwice(fields: Fields) returns (first: Reply, second: Reply, fetched: Reply)
    requires Present(fields.name) && Present(fields.email)
    ensures first == second == Reply(200, Done("Resume deleted successfully"))
    ensures fetched == Reply(404, ErrorBody("Resume not found"))
  {
    var store := new ResumeStore();
    var posted := store.PostResume(fields, false);
    first := store.DeleteResume(1, false);
    second := store.DeleteResume(1, false);
    fetched := store.GetResume(1, false);
  }

  /** Of two resumes submitted at different times, the later one is listed
      first, and both are listed. */
  method NewestListedFirst(older: Fields, newer: Fields) returns (listed: Reply)
    requires Present(older.name) && Present(older.email)
    requires Present(newer.name) && Present(newer.email)
    ensures listed.status == 200 && listed.body.Listing? && |listed.body.summaries| >= 2
    ensures listed.body.summaries[0] == Summarize(Row(2, newer, 1, 1))
    ensures Summarize(Row(1, older, 0, 0)) in listed.body.summaries
  {
    var store := new ResumeStore();
    var a := store.PostResume(older, false);
    store.Tick(1);
    var b := store.PostResume(newer, false);
    listed := store.GetResumes(false);
    var xs := listed.body.summaries;
    var sa, sb := Summarize(Row(1, older, 0, 0)), Summarize(Row(2, newer, 1, 1));
    assert store.rows == map[1 := Row(1, older, 0, 0), 2 := Row(2, newer, 1, 1)];
    assert sa in xs && sb in xs;
    assert sa != sb;
  }

  /** As written, every submission ends in an error; one that passes the
      gate leaves the button busy and disabled, and one that does not
      leaves it as it was. */
  method ButtonAfterSubmitAsWritten(header: Option<string>, markup: string, template: string, now: string, net: Transport)
    returns (caption: string, disabled: bool, threw: bool)
    ensures threw
    ensures PassesSubmitGate(ExtractPersonalInfo(header, markup, template, now)) ==> caption == BusyLabel && disabled
    ensures !PassesSubmitGate(ExtractPersonalInfo(header, markup, template, now)) ==> caption == "Submit Resume" && !disabled
  {
    var page := new Page("Submit Resume");
    var request;
    request, threw := page.SubmitResumeAsWritten(header, markup, template, now, net);
    caption, disabled := page.buttonText, page.buttonDisabled;
  }

  /** With the label saved before the `try` block, the button is restored. */
  method ButtonAfterSubmit(header: Option<string>, markup: string, template: string, now: string, net: Transport)
    returns (caption: string, disabled: bool)
    ensures caption == "Submit Resume" && !disabled
  {
    var page := new Page("Submit Resume");
    var request := page.SubmitResume(header, markup, template, now, net);
    caption, disabled := page.buttonText, page.buttonDisabled;
  }
}
