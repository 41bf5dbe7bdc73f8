/** The decision logic of the email service: which addresses a notification
    goes to, and the two gates (service disabled, no recipients) every send
    passes before it calls the mail API. The environment values and the API's
    answer are parameters. */
module Email {
  import opened Maybe
  import Text
  import Seqs

  /** The value the sample configuration ships for the API key. */
  const PlaceholderKey: string := "your_resend_api_key_here"
  const NotConfigured: string := "Email service not configured"
  const NoRecipients: string := "No recipients configured"

  /** `initEmailService`'s test: a key is set and is not the placeholder. */
  predicate KeyConfigured(apiKey: string) {
    apiKey != "" && apiKey != PlaceholderKey
  }

  /** `if (v) emails.push(...v.split(','))`: the comma-separated parts of an
      environment value, none when it is unset or empty. */
  function Parts(v: string): (r: seq<string>)
    ensures v == "" ==> r == []
    ensures v != "" ==> r == Text.Split(v, ',')
  {
    if v == "" then [] else Text.Split(v, ',')
  }

  /** `[...new Set(s)]`: the first occurrence of each string, in order. */
  function Dedupe(s: seq<string>): (r: seq<string>)
    ensures forall x :: x in r <==> x in s
    ensures forall i, j :: 0 <= i < j < |r| ==> r[i] != r[j]
    decreases |s|
  {
    if s == [] then []
    else
      var p := Dedupe(s[..|s| - 1]);
      var x := s[|s| - 1];
      assert forall y :: y in s <==> y in s[..|s| - 1] || y == x by {
        assert s == s[..|s| - 1] + [x];
      }
      if x in p then p else p + [x]
  }

  /** Deduplicating a longer list keeps the deduplicated prefix in front. */
  lemma {:induction false} DedupeKeepsPrefix(a: seq<string>, b: seq<string>)
    ensures Dedupe(a) <= Dedupe(a + b)
    decreases |b|
  {
    if b == [] {
      assert a + b == a;
    } else {
      var b0 := b[..|b| - 1];
      DedupeKeepsPrefix(a, b0);
      assert (a + b)[..|a + b| - 1] == a + b0;
    }
  }

  /** `email && email.trim().includes('@')`. */
  predicate Usable(e: string) {
    e != "" && Text.Contains(Text.Trim(e), '@')
  }

  /** `.map(email => email.trim())`. */
  function TrimAll(s: seq<string>): (r: seq<string>)
    ensures |r| == |s|
    ensures forall i :: 0 <= i < |s| ==> r[i] == Text.Trim(s[i])
  {
    Seqs.Map(s, Text.Trim)
  }

  /** `getDepartmentEmails(department)`: the HR addresses, then the department
      head addresses, deduplicated as written, keeping those whose trimmed form
      holds an '@', trimmed. The department is not consulted. */
  function DepartmentEmails(hrEmail: string, headEmail: string, department: string): (r: seq<string>)
    ensures forall i :: 0 <= i < |r| ==> Text.Contains(r[i], '@') && Text.IsTrimmed(r[i])
  {
    var kept := Seqs.Filter(Dedupe(Parts(hrEmail) + Parts(headEmail)), Usable);
    forall i | 0 <= i < |kept| ensures Text.IsTrimmed(Text.Trim(kept[i])) {
      Text.TrimIsTrimmed(kept[i]);
    }
    TrimAll(kept)
  }

  lemma TrimAllAppend(a: seq<string>, b: seq<string>)
    ensures TrimAll(a + b) == TrimAll(a) + TrimAll(b)
  {
    Seqs.MapAppend(a, b, Text.Trim);
  }

  lemma InTrimAll(s: seq<string>, x: string)
    ensures x in TrimAll(s) <==> exists p :: p in s && x == Text.Trim(p)
  {
    var r := TrimAll(s);
    if x in r {
      var i :| 0 <= i < |r| && r[i] == x;
      assert s[i] in s;
    }
    if p :| p in s && x == Text.Trim(p) {
      var i :| 0 <= i < |s| && s[i] == p;
      assert r[i] == x;
    }
  }

  lemma InFilterUsable(s: seq<string>, p: string)
    ensures p in Seqs.Filter(s, Usable) <==> p in s && Usable(p)
  {
    var f := Seqs.Filter(s, Usable);
    if p in f {
      var i :| 0 <= i < |f| && f[i] == p;
    }
    if p in s && Usable(p) {
      var i :| 0 <= i < |s| && s[i] == p;
    }
  }

  /** An address is listed exactly when some part of either variable is usable and trims to it. */
  lemma DepartmentEmailsAreTheUsableParts(hrEmail: string, headEmail: string, department: string, x: string)
    ensures x in DepartmentEmails(hrEmail, headEmail, department) <==>
      exists p :: p in Parts(hrEmail) + Parts(headEmail) && Usable(p) && x == Text.Trim(p)
  {
    var parts := Parts(hrEmail) + Parts(headEmail);
    var d := Dedupe(parts);
    var kept := Seqs.Filter(d, Usable);
    InTrimAll(kept, x);
    forall p ensures p in kept <==> p in parts && Usable(p) {
      InFilterUsable(d, p);
    }
  }

  /** The department argument makes no difference. */
  lemma DepartmentIgnored(hrEmail: string, headEmail: string, d1: string, d2: string)
    ensures DepartmentEmails(hrEmail, headEmail, d1) == DepartmentEmails(hrEmail, headEmail, d2)
  {
  }

  /** HR addresses come first: the list built from HR_EMAIL alone is a prefix
      of the list built from both variables. */
  lemma HrAddressesFirst(hrEmail: string, headEmail: string, department: string)
    ensures DepartmentEmails(hrEmail, "", department) <= DepartmentEmails(hrEmail, headEmail, department)
  {
    var hr := Parts(hrEmail);
    var all := hr + Parts(headEmail);
    assert hr + Parts("") == hr;
    DedupeKeepsPrefix(hr, Parts(headEmail));
    var front := Dedupe(hr);
    var back := Dedupe(all)[|front|..];
    assert Dedupe(all) == front + back;
    Seqs.FilterAppend(front, back, Usable);
    TrimAllAppend(Seqs.Filter(front, Usable), Seqs.Filter(back, Usable));
  }

  /** A leading space is trimmed away from a trimmed address. */
  lemma TrimLeadingSpace(a: string)
    requires a != [] && Text.IsTrimmed(a)
    ensures Text.Trim([' '] + a) == a
  {
    var s := [' '] + a;
    assert s[0] == ' ' && s[1..] == a;
    assert Text.TrimStart(s) == Text.TrimStart(a);
    Text.TrimmedIsFixed(a);
  }

  lemma DedupeTwo(x: string, y: string)
    requires x != y
    ensures Dedupe([x, y]) == [x, y]
  {
    assert [x][..0] == [];
    assert Dedupe([x]) == [x];
    assert [x, y][..1] == [x];
  }

  lemma PartsOfTwo(x: string, y: string)
    requires ',' !in x && ',' !in y
    ensures Parts(Text.Join([x, y], ',')) + Parts("") == [x, y]
  {
    Text.SplitJoin([x, y], ',');
  }

  /** A usable address is still usable, and trims to itself, after a leading space. */
  lemma SpacedAddress(a: string)
    requires Text.IsTrimmed(a) && Text.Contains(a, '@')
    ensures Usable([' '] + a) && Usable(a)
    ensures Text.Trim([' '] + a) == a && Text.Trim(a) == a
  {
    TrimLeadingSpace(a);
    Text.TrimmedIsFixed(a);
  }

  lemma ListedAsTrimmed(hrEmail: string, headEmail: string, department: string, kept: seq<string>)
    requires Seqs.Filter(Dedupe(Parts(hrEmail) + Parts(headEmail)), Usable) == kept
    ensures DepartmentEmails(hrEmail, headEmail, department) == TrimAll(kept)
  {
  }

  /** Both parts of the spaced-and-plain list survive deduplication and the '@' test. */
  lemma SpacedAndPlainKept(a: string)
    requires Text.IsTrimmed(a) && Text.Contains(a, '@') && ',' !in a
    ensures Seqs.Filter(Dedupe(Parts(Text.Join([[' '] + a, a], ',')) + Parts("")), Usable) == [[' '] + a, a]
  {
    var spaced := [' '] + a;
    assert ',' !in spaced;
    PartsOfTwo(spaced, a);
    assert |spaced| != |a|;
    DedupeTwo(spaced, a);
    SpacedAddress(a);
    Seqs.FilterPair(spaced, a, Usable);
  }

  lemma TrimAllTwo(x: string, y: string)
    ensures TrimAll([x, y]) == [Text.Trim(x), Text.Trim(y)]
  {
    Seqs.MapPair(x, y, Text.Trim);
  }

  /** Duplicates are removed before trimming, so an address written once with
      a leading space and once without is listed twice. */
  lemma DedupeBeforeTrim(a: string, department: string)
    requires Text.IsTrimmed(a) && Text.Contains(a, '@') && ',' !in a
    ensures DepartmentEmails(Text.Join([[' '] + a, a], ','), "", department) == [a, a]
  {
    SpacedAndPlainKept(a);
    ListedAsTrimmed(Text.Join([[' '] + a, a], ','), "", department, [[' '] + a, a]);
    TrimAllTwo([' '] + a, a);
    SpacedAddress(a);
  }

  /** What the mail API call does: answers with a message id, or throws. */
  datatype ApiResult = ApiSent(id: string) | ApiThrew(error: string)

  /** What a send function answers: `{ success: false, message }` when a gate
      stops it, `{ success: true, messageId }` or `{ success: false, error }` after the call. */
  datatype SendResult = Skipped(message: string) | Delivered(messageId: string) | Failed(error: string) {
    predicate Success() { Delivered? }
  }

  /** The gates shared by every notification, then the API's answer. */
  function Gate(enabled: bool, recipients: seq<string>, api: ApiResult): (r: SendResult)
    ensures !enabled ==> r == Skipped(NotConfigured)
    ensures enabled && recipients == [] ==> r == Skipped(NoRecipients)
    ensures r.Success() <==> enabled && recipients != [] && api.ApiSent?
    ensures r.Success() ==> r.messageId == api.id
    ensures r.Failed? ==> api == ApiThrew(r.error)
  {
    if !enabled then Skipped(NotConfigured)
    else if recipients == [] then Skipped(NoRecipients)
    else match api
      case ApiSent(id) => Delivered(id)
      case ApiThrew(e) => Failed(e)
  }

  /** The service object: `isEnabled` is decided by `initEmailService` and gates every send. */
  class EmailService {
    var isEnabled: bool

    /** The constructor runs `initEmailService`. */
    constructor (apiKey: string)
      ensures isEnabled == KeyConfigured(apiKey)
    {
      isEnabled := KeyConfigured(apiKey);
    }

    method InitEmailService(apiKey: string) returns (ok: bool)
      modifies this`isEnabled
      ensures ok == KeyConfigured(apiKey) && isEnabled == ok
    {
      if apiKey == "" || apiKey == PlaceholderKey {
        isEnabled := false;
        return false;
      }
      isEnabled := true;
      return true;
    }

    /** `sendIssueNotification`: to the department list for `assignedTo || department`. */
    function IssueNotification(hrEmail: string, headEmail: string, assignedTo: string, department: string, api: ApiResult): (r: SendResult)
      reads this
      ensures r == Gate(isEnabled, DepartmentEmails(hrEmail, headEmail, department), api)
    {
      Gate(isEnabled, DepartmentEmails(hrEmail, headEmail, if assignedTo != "" then assignedTo else department), api)
    }

    /** `sendAnnouncementNotification`: to the target employee's address when the
        type is "individual" and a target was found, else to the department list. */
    function AnnouncementNotification(hrEmail: string, headEmail: string, announcementType: string,
                                      targetEmail: Option<string>, api: ApiResult): (r: SendResult)
      reads this
      ensures !isEnabled ==> r == Skipped(NotConfigured)
      ensures announcementType == "individual" && targetEmail.Some? && targetEmail.value == "" && isEnabled ==>
        r == Skipped(NoRecipients)
      ensures announcementType == "individual" && targetEmail.Some? && targetEmail.value != "" ==>
        r == Gate(isEnabled, [targetEmail.value], api)
      ensures announcementType != "individual" || targetEmail.None? ==>
        r == Gate(isEnabled, DepartmentEmails(hrEmail, headEmail, "all"), api)
    {
      var recipients :=
        if announcementType == "individual" && targetEmail.Some? then
          (if targetEmail.value != "" then [targetEmail.value] else [])
        else DepartmentEmails(hrEmail, headEmail, "all");
      Gate(isEnabled, recipients, api)
    }

    /** `sendLeaveRequestNotification`: to the department list for "HR". */
    function LeaveNotification(hrEmail: string, headEmail: string, api: ApiResult): (r: SendResult)
      reads this
      ensures !isEnabled ==> r == Skipped(NotConfigured)
      ensures isEnabled && DepartmentEmails(hrEmail, headEmail, "HR") == [] ==> r == Skipped(NoRecipients)
      ensures r.Success() <==> isEnabled && DepartmentEmails(hrEmail, headEmail, "HR") != [] && api.ApiSent?
      ensures r.Success() ==> r.messageId == api.id
      ensures r.Failed? ==> api == ApiThrew(r.error)
    {
      Gate(isEnabled, DepartmentEmails(hrEmail, headEmail, "HR"), api)
    }
  }

  /** A disabled service never reports success, whatever the notice and whatever the API would answer. */
  lemma DisabledNeverSends(s: EmailService, hrEmail: string, headEmail: string, assignedTo: string, department: string,
                           announcementType: string, targetEmail: Option<string>, api: ApiResult)
    requires !s.isEnabled
    ensures s.IssueNotification(hrEmail, headEmail, assignedTo, department, api) == Skipped(NotConfigured)
    ensures s.LeaveNotification(hrEmail, headEmail, api) == Skipped(NotConfigured)
    ensures s.AnnouncementNotification(hrEmail, headEmail, announcementType, targetEmail, api) == Skipped(NotConfigured)
  {
  }

  /** With neither address variable set there is nobody to notify. */
  lemma NoAddressesNoRecipients(s: EmailService, department: string, api: ApiResult)
    requires s.isEnabled
    ensures DepartmentEmails("", "", department) == []
    ensures s.LeaveNotification("", "", api) == Skipped(NoRecipients)
  {
  }
}
