/**
 * The thread-specific branch setting of the module stores
 * (common/lib/xmodule/xmodule/modulestore/branch_setting.py): one memoised
 * cell holding "draft", "published" or nothing, filled on first use from the
 * current request's hostname mapping or else from the configured default.
 *
 * The thread-local cell is the one field of a `BranchSetting` object; the
 * request hostname, the hostname mappings, the regular-expression matcher and
 * the configured default are explicit inputs gathered in `Context`.
 */
module BranchSettings {
  import opened Results

  const DRAFT: string := "draft"
  const PUBLISHED: string := "published"
  /** The values the cell may hold. */
  const TYPES: seq<string> := [DRAFT, PUBLISHED]

  /** One entry of the hostname mapping setting: a pattern and the value it
      maps to (which may be None). */
  datatype Mapping = Mapping(pattern: string, branch: Option<string>)

  /**
   * What `get_value` consults when the cell is empty: the hostname of the
   * request being served (None outside a request), the hostname mappings in
   * iteration order (absent and empty alike are the empty sequence),
   * `matches(pattern, hostname)` standing for `re.match`, and the configured
   * default branch.
   */
  datatype Context = Context(
    hostname: Option<string>,
    mappings: seq<Mapping>,
    matches: (string, string) -> bool,
    defaultBranch: Option<string>)

  /** The assertion `branch in TYPES` failing, with the offending value. */
  datatype BranchError = NotABranch(value: Option<string>)

  /** A hostname that Python would treat as true. */
  predicate HasHostname(hostname: Option<string>) {
    hostname.Some? && hostname.value != []
  }

  /** Index `i` is the first mapping whose pattern matches `host`. */
  predicate FirstMatchAt(host: string, mappings: seq<Mapping>, matches: (string, string) -> bool, i: int) {
    && 0 <= i < |mappings|
    && matches(mappings[i].pattern, host)
    && forall j :: 0 <= j < i ==> !matches(mappings[j].pattern, host)
  }

  /** `_get_branch_from_request` as a value: the value of the first mapping
      whose pattern matches the hostname, else `default`. */
  function RequestBranch(hostname: Option<string>, mappings: seq<Mapping>,
                         matches: (string, string) -> bool, default: Option<string>): (r: Option<string>)
    ensures !HasHostname(hostname) ==> r == default
    ensures (HasHostname(hostname) &&
             forall j :: 0 <= j < |mappings| ==> !matches(mappings[j].pattern, hostname.value)) ==> r == default
    ensures forall i :: HasHostname(hostname) && FirstMatchAt(hostname.value, mappings, matches, i)
              ==> r == mappings[i].branch
    decreases |mappings|
  {
    if !HasHostname(hostname) || mappings == [] then default
    else if matches(mappings[0].pattern, hostname.value) then mappings[0].branch
    else
      var r := RequestBranch(hostname, mappings[1..], matches, default);
      assert forall i :: FirstMatchAt(hostname.value, mappings, matches, i) ==>
        i >= 1 && FirstMatchAt(hostname.value, mappings[1..], matches, i - 1);
      r
  }

  /** The value `get_value` computes for an empty cell: the request mapping
      when it yields a value, else the configured default; anything outside
      `TYPES` fails the assertion. */
  function ComputeBranch(ctx: Context): (r: Result<string, BranchError>)
    ensures r.Ok? ==> r.value in TYPES
    ensures r.Err? ==> r.error.value.None? || r.error.value.value !in TYPES
  {
    var fromRequest := RequestBranch(ctx.hostname, ctx.mappings, ctx.matches, None);
    var branch := if fromRequest.Some? then fromRequest else ctx.defaultBranch;
    if branch.Some? && branch.value in TYPES then Ok(branch.value) else Err(NotABranch(branch))
  }

  /** A matching hostname mapping with a value decides the branch whatever
      the configured default says: that value when it is one of `TYPES`, the
      failed assertion on it otherwise. */
  lemma MappingTakesPrecedence(ctx: Context, other: Option<string>, i: nat)
    requires HasHostname(ctx.hostname)
    requires FirstMatchAt(ctx.hostname.value, ctx.mappings, ctx.matches, i)
    requires ctx.mappings[i].branch.Some?
    ensures ComputeBranch(ctx) == ComputeBranch(ctx.(defaultBranch := other))
    ensures ctx.mappings[i].branch.value in TYPES ==> ComputeBranch(ctx) == Ok(ctx.mappings[i].branch.value)
    ensures ctx.mappings[i].branch.value !in TYPES ==> ComputeBranch(ctx) == Err(NotABranch(ctx.mappings[i].branch))
  {
  }

  /** The request yields no branch: there is no hostname, no mapping matches,
      or the first match maps to None. */
  predicate Unmapped(ctx: Context) {
    || !HasHostname(ctx.hostname)
    || (forall j :: 0 <= j < |ctx.mappings| ==> !ctx.matches(ctx.mappings[j].pattern, ctx.hostname.value))
    || (exists i :: 0 <= i < |ctx.mappings| && FirstMatchAt(ctx.hostname.value, ctx.mappings, ctx.matches, i) && ctx.mappings[i].branch.None?)
  }

  /** When the request yields no branch, the configured default decides. */
  lemma DefaultWhenUnmapped(ctx: Context)
    requires Unmapped(ctx)
    ensures ComputeBranch(ctx).Ok? <==> ctx.defaultBranch.Some? && ctx.defaultBranch.value in TYPES
    ensures ComputeBranch(ctx).Ok? ==> ComputeBranch(ctx).value == ctx.defaultBranch.value
  {
  }

  /** `_get_branch_from_request`: scans the mappings in order and returns the
      value of the first whose pattern matches. */
  method GetBranchFromRequest(hostname: Option<string>, mappings: seq<Mapping>,
                              matches: (string, string) -> bool, default: Option<string>)
    returns (b: Option<string>)
    ensures b == RequestBranch(hostname, mappings, matches, default)
  {
    if HasHostname(hostname) {
      if mappings != [] {
        var i := 0;
        while i < |mappings|
          invariant 0 <= i <= |mappings|
          invariant RequestBranch(hostname, mappings[i..], matches, default) ==
                    RequestBranch(hostname, mappings, matches, default)
        {
          if matches(mappings[i].pattern, hostname.value) {
            return mappings[i].branch;
          }
          assert mappings[i..][1..] == mappings[i + 1..];
          i := i + 1;
        }
      }
    }
    return default;
  }

  /** The branch cell of one thread. */
  class BranchSetting {
    /** `local_thread_branch.branch_value`; None when unset. */
    var branchValue: Option<string>

    /** The cell only ever holds one of `TYPES`. */
    ghost predicate Valid()
      reads this
    {
      branchValue.Some? ==> branchValue.value in TYPES
    }

    /** What `get_value` returns in the current state. */
    function Value(ctx: Context): (r: Result<string, BranchError>)
      reads this
      requires Valid()
      ensures r.Ok? ==> r.value in TYPES
      ensures branchValue.Some? ==> r == Ok(branchValue.value)
    {
      if branchValue.Some? then Ok(branchValue.value) else ComputeBranch(ctx)
    }

    /** A thread that has not chosen a branch yet. */
    constructor()
      ensures branchValue == None
      ensures Valid()
    {
      branchValue := None;
    }

    /** `get_value`: a set cell is returned as it is, without looking at the
        request or the settings; an empty cell is computed and, when the
        value passes the assertion, stored. */
    method GetValue(ctx: Context) returns (r: Result<string, BranchError>)
      requires Valid()
      modifies this
      ensures Valid()
      ensures r == old(Value(ctx))
      ensures old(branchValue).Some? ==> branchValue == old(branchValue)
      ensures branchValue == if r.Ok? then Some(r.value) else old(branchValue)
    {
      var branch := branchValue;
      if branch.None? {
        branch := GetBranchFromRequest(ctx.hostname, ctx.mappings, ctx.matches, None);
        if branch.None? {
          branch := ctx.defaultBranch;
        }
        if !(branch.Some? && branch.value in TYPES) {
          return Err(NotABranch(branch));
        }
        branchValue := branch;
      }
      return Ok(branch.value);
    }

    /** `set_draft`. */
    method SetDraft()
      modifies this
      ensures branchValue == Some(DRAFT)
      ensures Valid()
    {
      branchValue := Some(DRAFT);
    }

    /** `set_published`. */
    method SetPublished()
      modifies this
      ensures branchValue == Some(PUBLISHED)
      ensures Valid()
    {
      branchValue := Some(PUBLISHED);
    }

    /** `reset`: the next `get_value` computes the branch afresh. */
    method Reset()
      modifies this
      ensures branchValue == None
      ensures Valid()
    {
      branchValue := None;
    }

    /** `is_draft`: whether `get_value` yields "draft" (the assertion failure
        passes through). */
    method IsDraft(ctx: Context) returns (r: Result<bool, BranchError>)
      requires Valid()
      modifies this
      ensures Valid()
      ensures r.Ok? <==> old(Value(ctx)).Ok?
      ensures r.Ok? ==> r.value == (old(Value(ctx)).value == DRAFT)
      ensures r.Err? ==> r.error == old(Value(ctx)).error
      ensures branchValue == if r.Ok? then Some(old(Value(ctx)).value) else old(branchValue)
    {
      var v := GetValue(ctx);
      match v {
        case Ok(b) => r := Ok(b == DRAFT);
        case Err(e) => r := Err(e);
      }
    }

    /** `is_published`: whether `get_value` yields "published". */
    method IsPublished(ctx: Context) returns (r: Result<bool, BranchError>)
      requires Valid()
      modifies this
      ensures Valid()
      ensures r.Ok? <==> old(Value(ctx)).Ok?
      ensures r.Ok? ==> r.value == (old(Value(ctx)).value == PUBLISHED)
      ensures r.Err? ==> r.error == old(Value(ctx)).error
      ensures branchValue == if r.Ok? then Some(old(Value(ctx)).value) else old(branchValue)
    {
      var v := GetValue(ctx);
      match v {
        case Ok(b) => r := Ok(b == PUBLISHED);
        case Err(e) => r := Err(e);
      }
    }

    /** Once `get_value` has succeeded, a second call returns the same value,
        even in another context. */
    method GetValueTwice(ctx: Context, later: Context) returns (first: Result<string, BranchError>, second: Result<string, BranchError>)
      requires Valid()
      modifies this
      ensures first == old(Value(ctx))
      ensures first.Ok? ==> second == first
    {
      first := GetValue(ctx);
      second := GetValue(later);
    }

    /** After `set_draft` the thread is in draft mode and not in published
        mode, whatever the request and settings; `set_published` is the
        mirror image. */
    method SetDraftThenQuery(ctx: Context) returns (draft: Result<bool, BranchError>, published: Result<bool, BranchError>)
      modifies this
      ensures draft == Ok(true) && published == Ok(false)
    {
      SetDraft();
      draft := IsDraft(ctx);
      published := IsPublished(ctx);
    }

    method SetPublishedThenQuery(ctx: Context) returns (draft: Result<bool, BranchError>, published: Result<bool, BranchError>)
      modifies this
      ensures draft == Ok(false) && published == Ok(true)
    {
      SetPublished();
      draft := IsDraft(ctx);
      published := IsPublished(ctx);
    }

    /** After `reset` the next `get_value` recomputes from the context. */
    method ResetThenGet(ctx: Context) returns (r: Result<string, BranchError>)
      modifies this
      ensures r == ComputeBranch(ctx)
    {
      Reset();
      r := GetValue(ctx);
    }

    /** Asking both questions in turn, exactly one of them holds whenever the
        value passes the assertion. */
    method DraftXorPublished(ctx: Context) returns (draft: Result<bool, BranchError>, published: Result<bool, BranchError>)
      requires Valid()
      modifies this
      ensures draft.Ok? <==> old(Value(ctx)).Ok?
      ensures draft.Ok? ==> published.Ok? && draft.value != published.value
    {
      draft := IsDraft(ctx);
      published := IsPublished(ctx);
    }
  }
}
