/** The dialog that shares an interview: the interview link, the link-expiry
    setting it writes to the interview's record, and the Gmail and WhatsApp
    links that carry an invitation to the candidate.

    The host URL, the clock (`Date.now()`, in milliseconds) and the outcome
    of the database update are parameters. */
module ShareDialog {
  import opened Options
  import opened JsText
  import opened UriComponent

  /** The interview fields the dialog renders, each as the text a template
      literal gives it. */
  datatype Interview = Interview(interviewId: string, jobPosition: string, duration: string, jobExperience: string)

  // ---------------------------------------------------------------------
  // The interview link.

  const InterviewPath := "/interview/"

  /** `${NEXT_PUBLIC_HOST_URL}/interview/${interview_id}`. */
  function InterviewUrl(host: string, id: string): string {
    host + InterviewPath + id
  }

  /** The interview id a link under `host` points to, if it is an interview
      link. */
  function InterviewIdOf(host: string, link: string): Option<string> {
    var prefix := host + InterviewPath;
    if StartsWith(link, prefix) then Some(link[|prefix|..]) else None
  }

  /** The link leads back to its interview, so no two interviews share a
      link. */
  lemma InterviewUrlRoundTrip(host: string, id: string)
    ensures InterviewIdOf(host, InterviewUrl(host, id)) == Some(id)
  {
    var prefix := host + InterviewPath;
    assert InterviewUrl(host, id) == prefix + id;
    assert (prefix + id)[..|prefix|] == prefix;
  }

  // ---------------------------------------------------------------------
  // Link expiry.

  /** The options of the link-security select. */
  const ExpiryOptions: seq<string> := ["never", "1hour", "24hours", "7days"]

  /** The `link_expires_at` an option gives: one hour, 24 hours or seven
      days after `now`, and no expiry (`null`) for every other value. */
  function ExpiresAt(option: string, now: int): (r: Option<int>)
    ensures r.Some? <==> option == "1hour" || option == "24hours" || option == "7days"
    ensures r.Some? ==> r.value > now
  {
    if option == "1hour" then Some(now + 60 * 60 * 1000)
    else if option == "24hours" then Some(now + 24 * 60 * 60 * 1000)
    else if option == "7days" then Some(now + 7 * 24 * 60 * 60 * 1000)
    else None
  }

  /** The offsets in milliseconds. */
  lemma ExpiryOffsets(now: int)
    ensures ExpiresAt("1hour", now) == Some(now + 3_600_000)
    ensures ExpiresAt("24hours", now) == Some(now + 86_400_000)
    ensures ExpiresAt("7days", now) == Some(now + 604_800_000)
    ensures ExpiresAt("never", now) == None
  {
  }

  /** The option a stored expiry was written from. */
  function ExpiryChoice(expiresAt: Option<int>, now: int): string {
    match expiresAt
    case None => "never"
    case Some(t) =>
      if t - now == 3_600_000 then "1hour"
      else if t - now == 86_400_000 then "24hours"
      else if t - now == 604_800_000 then "7days"
      else "never"
  }

  /** Each option of the select is recovered from the expiry it writes, and
      any value that is not an option writes what `never` writes. */
  lemma ExpiryRoundTrip(option: string, now: int)
    ensures option in ExpiryOptions ==> ExpiryChoice(ExpiresAt(option, now), now) == option
    ensures option !in ExpiryOptions ==> ExpiresAt(option, now) == ExpiresAt("never", now)
  {
  }

  /** The link columns of an interview record. */
  datatype LinkSettings = LinkSettings(linkExpiresAt: Option<int>, isLinkActive: bool)

  /** `update(settings).eq('interview_id', id)`: the record with that id
      gets the settings, and a missing id matches no record. */
  function WriteLinkSettings(rows: map<string, LinkSettings>, id: string, settings: LinkSettings): map<string, LinkSettings> {
    if id in rows then rows[id := settings] else rows
  }

  /** The update touches the one record it names and no other, and adds
      none. */
  lemma WriteTouchesOneRecord(rows: map<string, LinkSettings>, id: string, settings: LinkSettings)
    ensures var r := WriteLinkSettings(rows, id, settings);
      && r.Keys == rows.Keys
      && (id in rows ==> r[id] == settings)
      && forall k :: k in rows && k != id ==> r[k] == rows[k]
  {
  }

  /** The settings every update writes: the chosen expiry, and the link
      switched on whatever option was chosen. */
  function Requested(option: string, now: int): (s: LinkSettings)
    ensures s.isLinkActive
    ensures s.linkExpiresAt.Some? <==> option in ExpiryOptions && option != "never"
  {
    LinkSettings(ExpiresAt(option, now), true)
  }

  const UpdatedNotice := "Link security settings updated"
  const FailedNotice := "Failed to update link security"

  /** The dialog's state and the interview records it writes to. */
  class ShareDialogState {
    const interviewId: string
    /** The value of the link-security select. */
    var linkExpiry: string
    /** Whether an update is in flight; the select is disabled meanwhile. */
    var updating: bool
    /** The settings of the update in flight. */
    var pending: Option<LinkSettings>
    /** The link columns of the `Interviews` table, by interview id. */
    var rows: map<string, LinkSettings>

    /** An update is pending exactly while `updating` is set, and it always
        switches the link on. */
    ghost predicate Valid()
      reads this
    {
      && (updating <==> pending.Some?)
      && (pending.Some? ==> pending.value.isLinkActive)
    }

    constructor(interviewId: string, rows: map<string, LinkSettings>)
      ensures Valid()
      ensures this.interviewId == interviewId && this.rows == rows
      ensures linkExpiry == "never" && !updating
    {
      this.interviewId := interviewId;
      this.rows := rows;
      linkExpiry := "never";
      updating := false;
      pending := None;
    }

    /** The first half of `updateLinkSecurity`, up to the awaited database
        call: `updating` is set and the settings to write are computed. */
    method BeginUpdate(option: string, now: int)
      requires Valid() && !updating
      modifies this
      ensures Valid() && updating
      ensures pending == Some(Requested(option, now))
      ensures linkExpiry == old(linkExpiry) && rows == old(rows)
    {
      updating := true;
      var expiresAt: Option<int> := None;
      if option == "1hour" {
        expiresAt := Some(now + 60 * 60 * 1000);
      } else if option == "24hours" {
        expiresAt := Some(now + 24 * 60 * 60 * 1000);
      } else if option == "7days" {
        expiresAt := Some(now + 7 * 24 * 60 * 60 * 1000);
      }
      pending := Some(LinkSettings(expiresAt, true));
    }

    /** The second half, once the database call has answered: the record
        has the new settings unless the call failed, the notice says which,
        and `updating` is cleared on both paths. */
    method FinishUpdate(failed: bool) returns (notice: string)
      requires Valid() && updating
      modifies this
      ensures Valid() && !updating
      ensures rows == if failed then old(rows) else WriteLinkSettings(old(rows), interviewId, old(pending).value)
      ensures notice == if failed then FailedNotice else UpdatedNotice
      ensures linkExpiry == old(linkExpiry)
    {
      if !failed {
        rows := WriteLinkSettings(rows, interviewId, pending.value);
        notice := UpdatedNotice;
      } else {
        notice := FailedNotice;
      }
      updating := false;
      pending := None;
    }

    /** `updateLinkSecurity(option)` run to its end. */
    method UpdateLinkSecurity(option: string, now: int, failed: bool) returns (notice: string)
      requires Valid() && !updating
      modifies this
      ensures Valid() && !updating
      ensures rows == if failed then old(rows) else WriteLinkSettings(old(rows), interviewId, Requested(option, now))
      ensures notice == if failed then FailedNotice else UpdatedNotice
      ensures linkExpiry == old(linkExpiry)
    {
      BeginUpdate(option, now);
      notice := FinishUpdate(failed);
    }

    /** `handleExpiryChange(value)`: the select shows the chosen value and
        the update for that same value starts. The select is disabled while
        an update is in flight, so no change arrives meanwhile. */
    method HandleExpiryChange(value: string, now: int)
      requires Valid() && !updating
      modifies this
      ensures Valid() && updating
      ensures linkExpiry == value
      ensures pending == Some(Requested(value, now))
      ensures rows == old(rows)
    {
      linkExpiry := value;
      BeginUpdate(value, now);
    }
  }

  // ---------------------------------------------------------------------
  // Invitations.

  /** `candidateName || 'Candidate'`. */
  function RecipientName(candidateName: string): (r: string)
    ensures r != []
    ensures candidateName != [] ==> r == candidateName
  {
    if candidateName != [] then candidateName else "Candidate"
  }

  /** The name used when no candidate name was entered. */
  lemma RecipientDefault()
    ensures RecipientName("") == "Candidate"
  {
  }

  function GmailSubject(iv: Interview): string {
    "Interview Invitation - " + iv.jobPosition
  }

  /** The e-mail text up to the link. */
  function GmailLead(recipient: string, iv: Interview): string {
    "Dear " + recipient + ",\n\n"
    + "You have been invited to participate in an AI-powered interview for the position of "
    + iv.jobPosition + ".\n\n"
    + "Interview Details:\n"
    + "Position: " + iv.jobPosition + "\n"
    + "Duration: " + iv.duration + " minutes\n"
    + "Experience Level: " + iv.jobExperience + " years\n\n"
    + "Please click on the link below to start your interview:\n"
  }

  /** The e-mail text after the link. */
  const GmailClosing := "\n\n" + "Best of luck!\n\n" + "Regards,\n" + "NextHire Team"

  function GmailBody(candidateName: string, iv: Interview, link: string): string {
    GmailLead(RecipientName(candidateName), iv) + link + GmailClosing
  }

  const GmailEndpoint := "https://mail.google.com/mail/"

  /** The fixed `view=cm&fs=1` parameters. */
  const GmailFixed := "view=cm" + "&fs=1"

  /** The query of the Gmail compose link; the `to` parameter is there only
      when an e-mail address was entered. */
  function GmailQuery(email: string, subject: string, body: string): string {
    if email != [] then
      GmailFixed + "&to=" + Encode(email) + "&su=" + Encode(subject) + "&body=" + Encode(body)
    else
      GmailFixed + "&su=" + Encode(subject) + "&body=" + Encode(body)
  }

  /** The link `shareViaGmail` opens. */
  function GmailUrl(email: string, candidateName: string, iv: Interview, link: string): string {
    GmailEndpoint + "?" + GmailQuery(email, GmailSubject(iv), GmailBody(candidateName, iv, link))
  }

  /** The WhatsApp text up to the link. */
  function WhatsAppLead(recipient: string, iv: Interview): string {
    "Hi " + recipient + "!\n\n"
    + "You've been invited to participate in an AI interview for *" + iv.jobPosition + "*.\n\n"
    + "*Interview Details:*\n"
    + "Position: " + iv.jobPosition + "\n"
    + "Duration: " + iv.duration + " minutes\n"
    + "Experience: " + iv.jobExperience + " years\n\n"
    + "Click here to start: "
  }

  const WhatsAppClosing := "\n\n" + "Good luck!"

  function WhatsAppMessage(candidateName: string, iv: Interview, link: string): string {
    WhatsAppLead(RecipientName(candidateName), iv) + link + WhatsAppClosing
  }

  const WhatsAppEndpoint := "https://wa.me/"

  /** The link `shareViaWhatsApp` opens: `https://wa.me/?text=` followed by
      the encoded message. */
  function WhatsAppUrl(candidateName: string, iv: Interview, link: string): string {
    WhatsAppEndpoint + "?" + ("text=" + Encode(WhatsAppMessage(candidateName, iv, link)))
  }

  // ---------------------------------------------------------------------
  // Reading the links back, as their receiver does.

  /** The text after the first `?`. */
  function QueryOf(url: string): string {
    match IndexOf(url, "?", 0)
    case None => []
    case Some(i) => url[i + 1..]
  }

  /** The remainder of the first field named `name`. */
  function FirstParam(fields: seq<string>, name: string): (r: Option<string>)
    ensures r.Some? ==> exists k :: 0 <= k < |fields| && fields[k] == name + "=" + r.value
  {
    if fields == [] then None
    else if StartsWith(fields[0], name + "=") then
      assert fields[0] == name + "=" + fields[0][|name| + 1..];
      Some(fields[0][|name| + 1..])
    else
      var r := FirstParam(fields[1..], name);
      if r.Some? then
        var k :| 0 <= k < |fields[1..]| && fields[1..][k] == name + "=" + r.value;
        assert fields[k + 1] == name + "=" + r.value;
        r
      else r
  }

  /** Whether the link has a parameter `name`. */
  predicate HasParam(url: string, name: string) {
    FirstParam(Fields(QueryOf(url)), name).Some?
  }

  /** The decoded value of the parameter `name`. */
  function ParamValue(url: string, name: string): Option<string> {
    match FirstParam(Fields(QueryOf(url)), name)
    case None => None
    case Some(v) => Decode(v)
  }

  /** The query follows the first `?`, after an endpoint without one. */
  lemma QueryAfterEndpoint(endpoint: string, query: string)
    requires '?' !in endpoint
    ensures QueryOf(endpoint + "?" + query) == query
  {
    ReplaceAfterFreePrefix(endpoint, "?", "");
    ReplaceFirstWithin(endpoint + "?", query, "?", "");
    assert (endpoint + "?" + query)[|endpoint| + 1..] == query;
  }

  lemma EndpointsHaveNoQuery()
    ensures '?' !in GmailEndpoint && '?' !in WhatsAppEndpoint
  {
  }

  /** Encoded text holds no separator. */
  lemma EncodedHasNoSeparator(s: string)
    ensures '&' !in Encode(s)
  {
  }

  lemma FieldsAfterLastSeparator(x: string, p: string)
    requires p != [] && p[0] == '&' && '&' !in p[1..]
    ensures Fields(x + p) == Fields(x) + [p[1..]]
  {
    FieldsAfterSeparator(x, p, []);
    assert x + p + [] == x + p;
    assert p[1..] + [] == p[1..];
  }

  lemma FixedFields()
    ensures Fields(GmailFixed) == ["view=cm", "fs=1"]
  {
    FieldsOfFree("view=cm");
    FieldsAfterLastSeparator("view=cm", "&fs=1");
  }

  /** One `&key=value` parameter appended to a query adds the field
      `key=value`. */
  lemma ParamField(x: string, sep: string, value: string, fields: seq<string>)
    requires |sep| >= 2 && sep[0] == '&' && '&' !in sep[1..] && '&' !in value
    requires Fields(x) == fields
    ensures Fields(x + sep + value) == fields + [sep[1..] + value]
  {
    FieldsAfterSeparator(x, sep, value);
  }

  /** Two `&key=value` parameters appended to a query. */
  lemma TwoParams(x: string, fields: seq<string>, s1: string, e1: string, s2: string, e2: string)
    requires |s1| >= 2 && s1[0] == '&' && '&' !in s1[1..] && '&' !in e1
    requires |s2| >= 2 && s2[0] == '&' && '&' !in s2[1..] && '&' !in e2
    requires Fields(x) == fields
    ensures Fields(x + s1 + e1 + s2 + e2) == fields + [s1[1..] + e1, s2[1..] + e2]
  {
    ParamField(x, s1, e1, fields);
    ParamField(x + s1 + e1, s2, e2, fields + [s1[1..] + e1]);
  }

  /** Three `&key=value` parameters appended to a query. */
  lemma ThreeParams(x: string, fields: seq<string>, s1: string, e1: string, s2: string, e2: string, s3: string, e3: string)
    requires |s1| >= 2 && s1[0] == '&' && '&' !in s1[1..] && '&' !in e1
    requires |s2| >= 2 && s2[0] == '&' && '&' !in s2[1..] && '&' !in e2
    requires |s3| >= 2 && s3[0] == '&' && '&' !in s3[1..] && '&' !in e3
    requires Fields(x) == fields
    ensures Fields(x + s1 + e1 + s2 + e2 + s3 + e3) == fields + [s1[1..] + e1, s2[1..] + e2, s3[1..] + e3]
  {
    ParamField(x, s1, e1, fields);
    TwoParams(x + s1 + e1, fields + [s1[1..] + e1], s2, e2, s3, e3);
  }

  /** The separators of the Gmail parameters. */
  lemma GmailSeparators()
    ensures "&to="[1..] == "to=" && "&su="[1..] == "su=" && "&body="[1..] == "body="
    ensures '&' !in "to=" && '&' !in "su=" && '&' !in "body="
  {
  }

  /** The fields of the Gmail query: the fixed ones, the recipient only when
      an address was entered, then the subject and the body. */
  lemma GmailFields(email: string, subject: string, body: string)
    ensures var to, su, bd := "to=" + Encode(email), "su=" + Encode(subject), "body=" + Encode(body);
      Fields(GmailQuery(email, subject, body)) ==
        if email != [] then ["view=cm", "fs=1", to, su, bd] else ["view=cm", "fs=1", su, bd]
  {
    FixedFields();
    GmailSeparators();
    EncodedHasNoSeparator(email);
    EncodedHasNoSeparator(subject);
    EncodedHasNoSeparator(body);
    if email != [] {
      ThreeParams(GmailFixed, ["view=cm", "fs=1"], "&to=", Encode(email), "&su=", Encode(subject), "&body=", Encode(body));
    } else {
      TwoParams(GmailFixed, ["view=cm", "fs=1"], "&su=", Encode(subject), "&body=", Encode(body));
    }
  }

  /** Regrouping the pieces of a query around one parameter. */
  lemma Regroup(x: string, s1: string, e1: string, s2: string, e2: string, s3: string, e3: string)
    ensures x + s1 + e1 + s2 + e2 + s3 + e3 == x + (s1 + e1) + (s2 + e2 + s3 + e3)
    ensures x + s2 + e2 + s3 + e3 == x + (s2 + e2 + s3 + e3)
  {
  }

  /** The query of the Gmail link without a recipient is the query of the
      link with one, with the `&to=` parameter cut out. */
  lemma GmailRecipientCut(email: string, subject: string, body: string)
    requires email != []
    ensures var rest := "&su=" + Encode(subject) + "&body=" + Encode(body);
      && GmailQuery(email, subject, body) == GmailFixed + ("&to=" + Encode(email)) + rest
      && GmailQuery([], subject, body) == GmailFixed + rest
  {
    Regroup(GmailFixed, "&to=", Encode(email), "&su=", Encode(subject), "&body=", Encode(body));
  }

  /** `FirstParam` passes over a field with another name. */
  lemma FirstParamSkips(fields: seq<string>, name: string)
    requires fields != [] && !StartsWith(fields[0], name + "=")
    ensures FirstParam(fields, name) == FirstParam(fields[1..], name)
  {
  }

  /** The first field named `name` is found past the fields with other
      names. */
  lemma {:induction false} FirstParamAt(fields: seq<string>, name: string, i: nat, v: string)
    requires i < |fields| && fields[i] == name + "=" + v
    requires forall k :: 0 <= k < i ==> !StartsWith(fields[k], name + "=")
    ensures FirstParam(fields, name) == Some(v)
    decreases i
  {
    var f := fields[i];
    if i == 0 {
      assert StartsWith(f, name + "=") && f[|name| + 1..] == v;
    } else {
      FirstParamAt(fields[1..], name, i - 1, v);
    }
  }

  /** No field named `name`, no parameter. */
  lemma {:induction false} FirstParamAbsent(fields: seq<string>, name: string)
    requires forall k :: 0 <= k < |fields| ==> !StartsWith(fields[k], name + "=")
    ensures FirstParam(fields, name) == None
    decreases |fields|
  {
    if fields != [] {
      FirstParamAbsent(fields[1..], name);
    }
  }

  /** The fixed fields and the subject and body fields are not `to`. */
  lemma NotRecipientFields(subject: string, body: string)
    ensures !StartsWith("view=cm", "to=") && !StartsWith("fs=1", "to=")
    ensures !StartsWith("su=" + subject, "to=") && !StartsWith("body=" + body, "to=")
  {
    assert ("su=" + subject)[..3] == "su=" != "to=";
    assert ("body=" + body)[..3] == "bod" != "to=";
  }

  lemma RecipientAmongFields(e: string, es: string, eb: string)
    ensures FirstParam(["view=cm", "fs=1", "to=" + e, "su=" + es, "body=" + eb], "to") == Some(e)
  {
    NotRecipientFields(es, eb);
    assert "to=" + e == "to" + "=" + e;
    FirstParamAt(["view=cm", "fs=1", "to=" + e, "su=" + es, "body=" + eb], "to", 2, e);
  }

  lemma NoRecipientAmongFields(es: string, eb: string)
    ensures FirstParam(["view=cm", "fs=1", "su=" + es, "body=" + eb], "to") == None
  {
    NotRecipientFields(es, eb);
    FirstParamAbsent(["view=cm", "fs=1", "su=" + es, "body=" + eb], "to");
  }

  /** The `to` field of a Gmail query. */
  lemma RecipientField(email: string, subject: string, body: string)
    ensures FirstParam(Fields(GmailQuery(email, subject, body)), "to") ==
      if email != [] then Some(Encode(email)) else None
  {
    GmailFields(email, subject, body);
    if email != [] {
      RecipientAmongFields(Encode(email), Encode(subject), Encode(body));
    } else {
      NoRecipientAmongFields(Encode(subject), Encode(body));
    }
  }

  /** The Gmail link names a recipient exactly when an address was
      entered, whatever the subject and body, and then the recipient
      decodes to that address. */
  lemma RecipientParam(email: string, subject: string, body: string)
    ensures var url := GmailEndpoint + "?" + GmailQuery(email, subject, body);
      && (HasParam(url, "to") <==> email != [])
      && (email != [] ==> ParamValue(url, "to") == Some(email))
  {
    EndpointsHaveNoQuery();
    QueryAfterEndpoint(GmailEndpoint, GmailQuery(email, subject, body));
    RecipientField(email, subject, body);
    DecodeEncode(email);
  }

  /** The link `shareViaGmail` opens names a recipient exactly when an
      address was entered, and then the recipient decodes to that
      address. */
  lemma GmailRecipient(email: string, candidateName: string, iv: Interview, link: string)
    ensures var url := GmailUrl(email, candidateName, iv, link);
      && (HasParam(url, "to") <==> email != [])
      && (email != [] ==> ParamValue(url, "to") == Some(email))
  {
    RecipientParam(email, GmailSubject(iv), GmailBody(candidateName, iv, link));
  }

  /** A text starts with another only if their first characters agree. */
  lemma FirstCharOfPrefix(a: string, b: string)
    requires a != [] && b != []
    ensures StartsWith(a, b) ==> a[0] == b[0]
  {
    if StartsWith(a, b) {
      assert a[..|b|][0] == a[0];
    }
  }

  /** The subject and the body fields of a Gmail query, past the fields
      before them. */
  lemma SubjectAndBodyAmongFields(pre: seq<string>, es: string, eb: string)
    requires forall k :: 0 <= k < |pre| ==> pre[k] != [] && pre[k][0] != 's' && pre[k][0] != 'b'
    ensures FirstParam(pre + ["su=" + es, "body=" + eb], "su") == Some(es)
    ensures FirstParam(pre + ["su=" + es, "body=" + eb], "body") == Some(eb)
  {
    var fs := pre + ["su=" + es, "body=" + eb];
    forall k | 0 <= k < |pre|
      ensures !StartsWith(fs[k], "su" + "=") && !StartsWith(fs[k], "body" + "=")
    {
      FirstCharOfPrefix(fs[k], "su" + "=");
      FirstCharOfPrefix(fs[k], "body" + "=");
    }
    assert fs[|pre|] == "su" + "=" + es;
    FirstParamAt(fs, "su", |pre|, es);
    assert ("su=" + es)[0] == 's';
    FirstCharOfPrefix(fs[|pre|], "body" + "=");
    assert fs[|pre| + 1] == "body" + "=" + eb;
    FirstParamAt(fs, "body", |pre| + 1, eb);
  }

  lemma SubjectAndBodyAfterRecipient(e: string, es: string, eb: string)
    ensures var fs := ["view=cm", "fs=1", "to=" + e, "su=" + es, "body=" + eb];
      FirstParam(fs, "su") == Some(es) && FirstParam(fs, "body") == Some(eb)
  {
    assert ("to=" + e)[0] == 't';
    SubjectAndBodyAmongFields(["view=cm", "fs=1", "to=" + e], es, eb);
    assert ["view=cm", "fs=1", "to=" + e] + ["su=" + es, "body=" + eb]
      == ["view=cm", "fs=1", "to=" + e, "su=" + es, "body=" + eb];
  }

  lemma SubjectAndBodyWithoutRecipient(es: string, eb: string)
    ensures var fs := ["view=cm", "fs=1", "su=" + es, "body=" + eb];
      FirstParam(fs, "su") == Some(es) && FirstParam(fs, "body") == Some(eb)
  {
    SubjectAndBodyAmongFields(["view=cm", "fs=1"], es, eb);
    assert ["view=cm", "fs=1"] + ["su=" + es, "body=" + eb] == ["view=cm", "fs=1", "su=" + es, "body=" + eb];
  }

  /** The subject and the body fields of a Gmail query. */
  lemma SubjectAndBodyFields(email: string, subject: string, body: string)
    ensures var fs := Fields(GmailQuery(email, subject, body));
      FirstParam(fs, "su") == Some(Encode(subject)) && FirstParam(fs, "body") == Some(Encode(body))
  {
    GmailFields(email, subject, body);
    if email != [] {
      SubjectAndBodyAfterRecipient(Encode(email), Encode(subject), Encode(body));
    } else {
      SubjectAndBodyWithoutRecipient(Encode(subject), Encode(body));
    }
  }

  /** The subject and the body a Gmail query carries, whatever the
      recipient. */
  lemma SubjectAndBodyParams(email: string, subject: string, body: string)
    ensures var url := GmailEndpoint + "?" + GmailQuery(email, subject, body);
      ParamValue(url, "su") == Some(subject) && ParamValue(url, "body") == Some(body)
  {
    EndpointsHaveNoQuery();
    QueryAfterEndpoint(GmailEndpoint, GmailQuery(email, subject, body));
    SubjectAndBodyFields(email, subject, body);
    DecodeEncode(subject);
    DecodeEncode(body);
  }

  /** The link `shareViaGmail` opens carries the subject and the whole
      invitation text, and that text holds the interview link. */
  lemma GmailMessage(email: string, candidateName: string, iv: Interview, link: string)
    ensures var url := GmailUrl(email, candidateName, iv, link);
      && ParamValue(url, "su") == Some(GmailSubject(iv))
      && ParamValue(url, "body") == Some(GmailBody(candidateName, iv, link))
      && Occurs(GmailBody(candidateName, iv, link), link)
  {
    SubjectAndBodyParams(email, GmailSubject(iv), GmailBody(candidateName, iv, link));
    OccursInMiddle(GmailLead(RecipientName(candidateName), iv), link, GmailClosing);
  }

  lemma TextFields(e: string)
    requires '&' !in e
    ensures Fields("text=" + e) == ["text=" + e]
  {
    assert '&' !in "text=" + e;
    FieldsOfFree("text=" + e);
  }

  lemma TextAmongFields(e: string)
    ensures FirstParam(["text=" + e], "text") == Some(e)
  {
    assert "text=" + e == "text" + "=" + e;
    FirstParamAt(["text=" + e], "text", 0, e);
  }

  /** The one field of a WhatsApp query. */
  lemma TextParam(message: string)
    ensures ParamValue(WhatsAppEndpoint + "?" + ("text=" + Encode(message)), "text") == Some(message)
  {
    var e := Encode(message);
    EndpointsHaveNoQuery();
    QueryAfterEndpoint(WhatsAppEndpoint, "text=" + e);
    EncodedHasNoSeparator(message);
    TextFields(e);
    TextAmongFields(e);
    DecodeEncode(message);
  }

  lemma WhatsAppPrefix(x: string)
    ensures WhatsAppEndpoint + "?" + ("text=" + x) == "https://wa.me/?text=" + x
  {
    assert WhatsAppEndpoint + "?" + "text=" == "https://wa.me/?text=";
    assert WhatsAppEndpoint + "?" + ("text=" + x) == WhatsAppEndpoint + "?" + "text=" + x;
  }

  /** The link `shareViaWhatsApp` opens is `https://wa.me/?text=` followed
      by the encoded message; its `text` parameter is the whole message,
      and the message holds the interview link. */
  lemma WhatsAppMessageSent(candidateName: string, iv: Interview, link: string)
    ensures var message := WhatsAppMessage(candidateName, iv, link);
      && WhatsAppUrl(candidateName, iv, link) == "https://wa.me/?text=" + Encode(message)
      && ParamValue(WhatsAppUrl(candidateName, iv, link), "text") == Some(message)
      && Occurs(message, link)
  {
    var message := WhatsAppMessage(candidateName, iv, link);
    WhatsAppPrefix(Encode(message));
    TextParam(message);
    OccursInMiddle(WhatsAppLead(RecipientName(candidateName), iv), link, WhatsAppClosing);
  }

  /** The encoded link appears as it is in an encoded text that holds the
      link. */
  lemma EncodedLinkInside(pre: string, a: string, link: string, b: string)
    ensures Occurs(pre + Encode(a + link + b), Encode(link))
  {
    EncodeAppend(a + link, b);
    EncodeAppend(a, link);
    OccursInMiddle(Encode(a), Encode(link), Encode(b));
    OccursPrepended(pre, Encode(a + link + b), Encode(link));
  }

  /** A Gmail link whose body holds the interview link holds it encoded. */
  lemma GmailQueryHoldsLink(email: string, subject: string, a: string, link: string, b: string)
    ensures Occurs(GmailEndpoint + "?" + GmailQuery(email, subject, a + link + b), Encode(link))
  {
    var body := a + link + b;
    var x := if email != [] then GmailFixed + "&to=" + Encode(email) + "&su=" + Encode(subject) + "&body="
      else GmailFixed + "&su=" + Encode(subject) + "&body=";
    EncodedLinkInside(x, a, link, b);
    OccursPrepended(GmailEndpoint + "?", x + Encode(body), Encode(link));
  }

  /** Both share links hold the interview link, encoded. */
  lemma ShareLinksHoldLink(email: string, candidateName: string, iv: Interview, link: string)
    ensures Occurs(GmailUrl(email, candidateName, iv, link), Encode(link))
    ensures Occurs(WhatsAppUrl(candidateName, iv, link), Encode(link))
  {
    var recipient := RecipientName(candidateName);
    GmailQueryHoldsLink(email, GmailSubject(iv), GmailLead(recipient, iv), link, GmailClosing);
    WhatsAppPrefix(Encode(WhatsAppMessage(candidateName, iv, link)));
    EncodedLinkInside("https://wa.me/?text=", WhatsAppLead(recipient, iv), link, WhatsAppClosing);
  }
}
