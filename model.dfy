/** The BugReport entity: the stored record as a value, its validation constraints, and the
    mutable bean whose setters the controllers and the service call. */
module Model {
  import opened Nullable
  import opened Text

  /** A `LocalDateTime`, as nanoseconds counted from 1970-01-01T00:00. */
  type Timestamp = int

  /** One row of `bug_reports`. Every Java reference field may be null, hence `Option`;
      `resolved` is a primitive boolean, `deleted` a nullable Boolean column.
      (`issueType` is the Java field `type`, a reserved word here.) */
  datatype BugReport = BugReport(
    id: Option<int>,
    name: Option<string>,
    email: Option<string>,
    role: Option<string>,
    browser: Option<string>,
    eventTime: Option<Timestamp>,
    issueType: Option<string>,
    description: Option<string>,
    screenshotPath: Option<string>,
    createdAt: Option<Timestamp>,
    resolved: bool,
    resolvedBy: Option<string>,
    resolutionDescription: Option<string>,
    resolvedAt: Option<Timestamp>,
    deleted: Option<bool>,
    deletedAt: Option<Timestamp>)

  /** The state of a freshly constructed bean: every reference null, `resolved` false. */
  const Fresh: BugReport :=
    BugReport(None, None, None, None, None, None, None, None, None, None,
              false, None, None, None, None, None)

  /** `@NotBlank @Size(max = max)`: not null, something left after `trim()`, and at most `max`
      UTF-16 code units, which is what `@Size` counts on a string. */
  predicate NotBlankAtMost(s: Option<string>, max: nat) {
    s.Some? && Trim(s.value) != [] && Utf16Length(s.value) <= max
  }

  /** `@Size(max = max)` on a nullable field. */
  predicate AtMost(s: Option<string>, max: nat) {
    s.None? || Utf16Length(s.value) <= max
  }

  /** A value `isBlank()` calls blank, or one made only of control characters, is refused by
      `@NotBlank`; a value with a visible character passes it when short enough. A value of
      `max` characters passes `@Size` when none lies beyond U+FFFF and fails it when one does,
      and one of more than `max` never passes. */
  lemma NotBlankAtMostMeaning(s: string, max: nat)
    ensures (forall i :: 0 <= i < |s| ==> Trimmable(s[i])) ==> !NotBlankAtMost(Some(s), max)
    ensures IsBlank(s) ==> !NotBlankAtMost(Some(s), max)
    ensures (exists i :: 0 <= i < |s| && !Trimmable(s[i])) && 2 * |s| <= max ==> NotBlankAtMost(Some(s), max)
    ensures |s| > max ==> !AtMost(Some(s), max)
    ensures |s| <= max && (forall i :: 0 <= i < |s| ==> s[i] as int < 0x10000) ==> AtMost(Some(s), max)
    ensures |s| == max && (exists i :: 0 <= i < |s| && s[i] as int >= 0x10000) ==> !AtMost(Some(s), max)
  {
    TrimEmpty(s);
  }

  /** The entity's bean-validation and column constraints. */
  predicate Valid(r: BugReport): (valid: bool)
    ensures valid ==> r.name.Some? && r.email.Some? && r.role.Some? && r.browser.Some?
    ensures valid ==> r.issueType.Some? && r.description.Some? && r.createdAt.Some?
    ensures valid ==> |r.name.value| <= 100 && |r.email.value| <= 150 && |r.description.value| <= 255
  {
    && NotBlankAtMost(r.name, 100)
    && NotBlankAtMost(r.email, 150)
    && NotBlankAtMost(r.role, 100)
    && NotBlankAtMost(r.browser, 50)
    && NotBlankAtMost(r.issueType, 50)
    && NotBlankAtMost(r.description, 255)
    && AtMost(r.screenshotPath, 500)
    && r.createdAt.Some?
  }

  /** Which fields validation needs: clearing a required one breaks a valid record, clearing an
      optional one (event time, screenshot path) or any resolution or deletion field does not. */
  lemma RequiredAndOptionalFields(r: BugReport)
    requires Valid(r)
    ensures !Valid(r.(name := None)) && !Valid(r.(email := None)) && !Valid(r.(role := None))
    ensures !Valid(r.(browser := None)) && !Valid(r.(issueType := None))
    ensures !Valid(r.(description := None)) && !Valid(r.(createdAt := None))
    ensures Valid(r.(eventTime := None)) && Valid(r.(screenshotPath := None))
    ensures Valid(r.(resolved := false, resolvedBy := None, resolutionDescription := None,
                     resolvedAt := None, deleted := None, deletedAt := None))
  {
  }

  /** A blank bean does not validate: its required fields are null. */
  lemma FreshIsInvalid()
    ensures !Valid(Fresh)
  {
  }

  /** The mutable JPA bean. Each setter may write only its own field (its `modifies` frame says
      so) and the record it denotes changes in that one field. */
  class BugReportEntity {
    var id: Option<int>
    var name: Option<string>
    var email: Option<string>
    var role: Option<string>
    var browser: Option<string>
    var eventTime: Option<Timestamp>
    var issueType: Option<string>
    var description: Option<string>
    var screenshotPath: Option<string>
    var createdAt: Option<Timestamp>
    var resolved: bool
    var resolvedBy: Option<string>
    var resolutionDescription: Option<string>
    var resolvedAt: Option<Timestamp>
    var deleted: Option<bool>
    var deletedAt: Option<Timestamp>

    /** The record this bean currently holds. */
    function Snapshot(): BugReport
      reads this
    {
      BugReport(id, name, email, role, browser, eventTime, issueType, description,
                screenshotPath, createdAt, resolved, resolvedBy, resolutionDescription,
                resolvedAt, deleted, deletedAt)
    }

    /** `new BugReport()`. */
    constructor ()
      ensures Snapshot() == Fresh
    {
      id, name, email, role, browser := None, None, None, None, None;
      eventTime, issueType, description, screenshotPath, createdAt := None, None, None, None, None;
      resolved, resolvedBy, resolutionDescription, resolvedAt := false, None, None, None;
      deleted, deletedAt := None, None;
    }

    /** The managed instance `findById` materialises from a stored row. */
    constructor Load(r: BugReport)
      ensures Snapshot() == r
    {
      id, name, email, role, browser := r.id, r.name, r.email, r.role, r.browser;
      eventTime, issueType, description := r.eventTime, r.issueType, r.description;
      screenshotPath, createdAt := r.screenshotPath, r.createdAt;
      resolved, resolvedBy, resolutionDescription := r.resolved, r.resolvedBy, r.resolutionDescription;
      resolvedAt, deleted, deletedAt := r.resolvedAt, r.deleted, r.deletedAt;
    }

    method SetId(v: Option<int>)
      modifies this`id
      ensures Snapshot() == old(Snapshot()).(id := v)
    {
      id := v;
    }

    method SetName(v: Option<string>)
      modifies this`name
      ensures Snapshot() == old(Snapshot()).(name := v)
    {
      name := v;
    }

    method SetEmail(v: Option<string>)
      modifies this`email
      ensures Snapshot() == old(Snapshot()).(email := v)
    {
      email := v;
    }

    method SetRole(v: Option<string>)
      modifies this`role
      ensures Snapshot() == old(Snapshot()).(role := v)
    {
      role := v;
    }

    method SetBrowser(v: Option<string>)
      modifies this`browser
      ensures Snapshot() == old(Snapshot()).(browser := v)
    {
      browser := v;
    }

    method SetEventTime(v: Option<Timestamp>)
      modifies this`eventTime
      ensures Snapshot() == old(Snapshot()).(eventTime := v)
    {
      eventTime := v;
    }

    method SetType(v: Option<string>)
      modifies this`issueType
      ensures Snapshot() == old(Snapshot()).(issueType := v)
    {
      issueType := v;
    }

    method SetDescription(v: Option<string>)
      modifies this`description
      ensures Snapshot() == old(Snapshot()).(description := v)
    {
      description := v;
    }

    method SetScreenshotPath(v: Option<string>)
      modifies this`screenshotPath
      ensures Snapshot() == old(Snapshot()).(screenshotPath := v)
    {
      screenshotPath := v;
    }

    method SetCreatedAt(v: Option<Timestamp>)
      modifies this`createdAt
      ensures Snapshot() == old(Snapshot()).(createdAt := v)
    {
      createdAt := v;
    }

    method SetResolved(v: bool)
      modifies this`resolved
      ensures Snapshot() == old(Snapshot()).(resolved := v)
    {
      resolved := v;
    }

    method SetResolvedBy(v: Option<string>)
      modifies this`resolvedBy
      ensures Snapshot() == old(Snapshot()).(resolvedBy := v)
    {
      resolvedBy := v;
    }

    method SetResolutionDescription(v: Option<string>)
      modifies this`resolutionDescription
      ensures Snapshot() == old(Snapshot()).(resolutionDescription := v)
    {
      resolutionDescription := v;
    }

    method SetResolvedAt(v: Option<Timestamp>)
      modifies this`resolvedAt
      ensures Snapshot() == old(Snapshot()).(resolvedAt := v)
    {
      resolvedAt := v;
    }
  }
}
