/**
  The error a database reports when its files need an upgrade
  (src/db_type/upgrade_required_error.rs), built step by step with one
  human-readable detail line per outdated component, and the conversion of
  an upgrade step's failure into `Error::UpgradeMigration` (src/upgrade.rs).
 */
module UpgradeErrors {
  import opened Outcome
  import opened Text
  import opened Errors

  /** `UpgradeRequiredError`; each version pair is (current, required). */
  datatype UpgradeRequiredError = UpgradeRequiredError(
    details: seq<string>,
    nativeDbVersion: Option<(string, string)>,
    nativeModelVersion: Option<(string, string)>,
    redbVersion: Option<nat>)

  /** The arrow between the current and the required version, U+2192. */
  const Arrow: string := " \U{2192} "

  /** The first line of the error's display. */
  const Header: string := "Database upgrade required:"

  /** `new` (and `Default`): no detail and no version. */
  function NewError(): (e: UpgradeRequiredError)
    ensures e.details == [] && e.nativeDbVersion.None? && e.nativeModelVersion.None? && e.redbVersion.None?
  {
    UpgradeRequiredError([], None, None, None)
  }

  /** `with_native_db_version`: records the pair and appends its detail line. */
  function WithNativeDbVersion(e: UpgradeRequiredError, current: string, required: string): (r: UpgradeRequiredError)
    ensures r.nativeDbVersion == Some((current, required))
    ensures r.details == e.details + ["  - Native DB: " + current + Arrow + required]
    ensures r.nativeModelVersion == e.nativeModelVersion && r.redbVersion == e.redbVersion
  {
    e.(nativeDbVersion := Some((current, required)),
       details := e.details + ["  - Native DB: " + current + Arrow + required])
  }

  /** `with_native_model_version`: records the pair and appends its detail line. */
  function WithNativeModelVersion(e: UpgradeRequiredError, current: string, required: string): (r: UpgradeRequiredError)
    ensures r.nativeModelVersion == Some((current, required))
    ensures r.details == e.details + ["  - Native Model: " + current + Arrow + required]
    ensures r.nativeDbVersion == e.nativeDbVersion && r.redbVersion == e.redbVersion
  {
    e.(nativeModelVersion := Some((current, required)),
       details := e.details + ["  - Native Model: " + current + Arrow + required])
  }

  /** `with_redb_version`: records the file format version (a `u8`) and appends its detail line. */
  function WithRedbVersion(e: UpgradeRequiredError, version: nat): (r: UpgradeRequiredError)
    requires version < 256
    ensures r.redbVersion == Some(version)
    ensures r.details == e.details + ["  - redb format: v" + Decimal(version) + Arrow + "v2"]
    ensures r.nativeDbVersion == e.nativeDbVersion && r.nativeModelVersion == e.nativeModelVersion
  {
    e.(redbVersion := Some(version), details := e.details + ["  - redb format: v" + Decimal(version) + Arrow + "v2"])
  }

  /** `is_empty`: no detail was recorded. */
  predicate IsEmpty(e: UpgradeRequiredError) {
    e.details == []
  }

  /** `build`: nothing to report gives `Ok`, otherwise the error itself. */
  function Build(e: UpgradeRequiredError): (r: Result<(), UpgradeRequiredError>)
    ensures r.Ok? <==> IsEmpty(e)
    ensures r.Err? ==> r.error == e
  {
    if IsEmpty(e) then Ok(()) else Err(e)
  }

  /** One builder call. */
  datatype Step =
    | NativeDb(current: string, required: string)
    | NativeModel(current: string, required: string)
    | Redb(version: nat)

  predicate ValidStep(s: Step) {
    s.Redb? ==> s.version < 256
  }

  /** The detail line a builder call appends. */
  function DetailOf(s: Step): string
    requires ValidStep(s)
  {
    match s
    case NativeDb(c, r) => "  - Native DB: " + c + Arrow + r
    case NativeModel(c, r) => "  - Native Model: " + c + Arrow + r
    case Redb(v) => "  - redb format: v" + Decimal(v) + Arrow + "v2"
  }

  /** One builder call on an error under construction. */
  function ApplyStep(e: UpgradeRequiredError, s: Step): (r: UpgradeRequiredError)
    requires ValidStep(s)
    ensures r.details == e.details + [DetailOf(s)]
  {
    match s
    case NativeDb(c, req) => WithNativeDbVersion(e, c, req)
    case NativeModel(c, req) => WithNativeModelVersion(e, c, req)
    case Redb(v) => WithRedbVersion(e, v)
  }

  /** `new()` followed by the builder calls, in order. */
  function Apply(steps: seq<Step>): (e: UpgradeRequiredError)
    requires forall i :: 0 <= i < |steps| ==> ValidStep(steps[i])
    ensures |e.details| == |steps|
  {
    if steps == [] then NewError()
    else ApplyStep(Apply(steps[..|steps| - 1]), steps[|steps| - 1])
  }

  /** Each builder call contributes its own detail line, in call order. */
  lemma {:induction false} ApplyListsDetails(steps: seq<Step>)
    requires forall i :: 0 <= i < |steps| ==> ValidStep(steps[i])
    ensures forall i :: 0 <= i < |steps| ==> Apply(steps).details[i] == DetailOf(steps[i])
  {
    if steps != [] {
      var front := steps[..|steps| - 1];
      ApplyListsDetails(front);
      var e := Apply(front);
      assert Apply(steps).details == e.details + [DetailOf(steps[|steps| - 1])];
      forall i | 0 <= i < |steps| ensures Apply(steps).details[i] == DetailOf(steps[i]) {
        if i < |front| {
          assert front[i] == steps[i];
        }
      }
    }
  }

  /** The most recent builder call of each kind decides the recorded versions. */
  lemma {:induction false} ApplyRecordsLastRedbVersion(steps: seq<Step>, v: nat)
    requires forall i :: 0 <= i < |steps| ==> ValidStep(steps[i])
    requires v < 256
    ensures Apply(steps + [Redb(v)]).redbVersion == Some(v)
    ensures Apply(steps + [Redb(v)]).nativeDbVersion == Apply(steps).nativeDbVersion
  {
    assert (steps + [Redb(v)])[..|steps|] == steps;
  }

  /** A built error reports nothing exactly when no builder call was made. */
  lemma BuildOkIffNoSteps(steps: seq<Step>)
    requires forall i :: 0 <= i < |steps| ==> ValidStep(steps[i])
    ensures Build(Apply(steps)).Ok? <==> steps == []
  {
  }

  /** `Display`: the header, then each detail on a line of its own. */
  function Display(e: UpgradeRequiredError): (r: string)
    ensures |r| >= |Header| && r[..|Header|] == Header
    ensures r == Header + Joined(e.details)
  {
    LinesAreJoined(Header, e.details);
    Lines(Header, e.details)
  }

  /** Reference text of the details, written front to back as the formatter loop does: `"\n{detail}"` for each. */
  function Joined(details: seq<string>): string {
    if details == [] then "" else "\n" + details[0] + Joined(details[1..])
  }

  lemma {:induction false} JoinedAppend(details: seq<string>, last: string)
    ensures Joined(details + [last]) == Joined(details) + "\n" + last
  {
    if details != [] {
      assert (details + [last])[1..] == details[1..] + [last];
      JoinedAppend(details[1..], last);
    }
  }

  /** Building the lines from the back gives the head followed by the front-to-back text. */
  lemma {:induction false} LinesAreJoined(head: string, details: seq<string>)
    ensures Lines(head, details) == head + Joined(details)
    decreases |details|
  {
    if details != [] {
      var front := details[..|details| - 1];
      LinesAreJoined(head, front);
      JoinedAppend(front, details[|details| - 1]);
      assert front + [details[|details| - 1]] == details;
    }
  }

  function Lines(head: string, details: seq<string>): (r: string)
    ensures |r| >= |head| && r[..|head|] == head
  {
    if details == [] then head
    else
      var front := Lines(head, details[..|details| - 1]);
      front + "\n" + details[|details| - 1]
  }

  /** The number of line breaks in a text. */
  function Breaks(s: string): nat {
    if s == [] then 0 else (if s[|s| - 1] == '\n' then 1 else 0) + Breaks(s[..|s| - 1])
  }

  lemma {:induction false} BreaksAppend(a: string, b: string)
    ensures Breaks(a + b) == Breaks(a) + Breaks(b)
    decreases |b|
  {
    if b == [] {
      assert a + b == a;
    } else {
      assert (a + b)[..|a + b| - 1] == a + b[..|b| - 1];
      BreaksAppend(a, b[..|b| - 1]);
    }
  }

  /**
    When no detail contains a line break, the display has exactly one line
    per detail after the header.
   */
  lemma {:induction false} DisplayHasOneLinePerDetail(head: string, details: seq<string>)
    requires Breaks(head) == 0
    requires forall i :: 0 <= i < |details| ==> Breaks(details[i]) == 0
    ensures Breaks(Lines(head, details)) == |details|
    decreases |details|
  {
    if details != [] {
      var front := Lines(head, details[..|details| - 1]);
      DisplayHasOneLinePerDetail(head, details[..|details| - 1]);
      BreaksAppend(front, "\n");
      BreaksAppend(front + "\n", details[|details| - 1]);
      assert Breaks("\n") == 1 by {
        assert "\n"[..0] == [];
      }
    }
  }

  /** The display of an error built with only an old file format version. */
  lemma DisplayOfRedbVersionOne()
    ensures Display(WithRedbVersion(NewError(), 1)) == Header + "\n" + "  - redb format: v" + "1" + Arrow + "v2"
  {
    var line := "  - redb format: v" + Decimal(1) + Arrow + "v2";
    assert Decimal(1) == "1";
    assert [line][..0] == [];
  }

  /** `upgrade_context`: a failure becomes `UpgradeMigration` with the context, keeping the source. */
  function UpgradeContext<T>(r: Result<T, string>, context: string): (out: Result<T, Error>)
    ensures r.Ok? <==> out.Ok?
    ensures r.Ok? ==> out.value == r.value
    ensures r.Err? ==> out.error == UpgradeMigration(context, r.error)
  {
    match r
    case Ok(v) => Ok(v)
    case Err(source) => Err(UpgradeMigration(context, source))
  }

  /** `upgrade_with_item`: as `upgrade_context`, the item's debug rendering appended to the context. */
  function UpgradeWithItem<T>(r: Result<T, string>, context: string, itemDebug: string): (out: Result<T, Error>)
    ensures r.Ok? ==> out == Ok(r.value)
    ensures r.Err? ==> out == Err(UpgradeMigration(context + " item: " + itemDebug, r.error))
  {
    match r
    case Ok(v) => Ok(v)
    case Err(source) => Err(UpgradeMigration(context + " item: " + itemDebug, source))
  }

  /** The item variant is the plain variant with a longer context. */
  lemma WithItemExtendsContext<T>(r: Result<T, string>, context: string, itemDebug: string)
    ensures UpgradeWithItem(r, context, itemDebug) == UpgradeContext(r, context + " item: " + itemDebug)
  {
  }
}
