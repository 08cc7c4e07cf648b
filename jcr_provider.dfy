/** The `cq_jcr` provider: it loads a content node's current properties, computes the diff
    against the desired ones the way `regular_diff`, `force_replace_diff` and
    `properties_diff` do, and posts either the whole desired map or the diff. The HTTP
    answers are parameters; the payloads posted are recorded in `posts`. */
module JcrProvider {
  import opened Outcomes
  import opened JcrDiff

  datatype JcrFailure =
    | ModifyFailed(code: string)  // `modify_node` got an answer outside 2xx-with-"20"
    | LookupRaised                // the node type's answer had no `rep:protectedProperties`

  /** `start_with?('20')`. */
  function Accepted(code: string): (ok: bool)
    ensures ok <==> "20" <= code
  {
    |code| >= 2 && code[..2] == "20"
  }

  class CqJcrProvider {
    /** `new_resource.properties`. */
    const desired: Props
    /** `new_resource.append`. */
    const append: bool
    /** The `rep:protectedProperties` list of the desired primary type's definition, if the
        answer has one. */
    const protectedRaw: Option<seq<string>>
    /** `current_resource.exist`. */
    var exist: bool
    /** `current_resource.properties`. */
    var current: Props
    /** Every payload `modify_node` has posted, in order. */
    var posts: seq<Props>

    constructor(desired: Props, append: bool, protectedRaw: Option<seq<string>>)
      ensures this.desired == desired && this.append == append && this.protectedRaw == protectedRaw
      ensures !exist && current == map[] && posts == []
    {
      this.desired := desired;
      this.append := append;
      this.protectedRaw := protectedRaw;
      exist := false;
      current := map[];
      posts := [];
    }

    /** `load_current_resource`: the node exists exactly when its JSON rendering answers 200;
        only then are its properties read. The diff it logs is computed either way, so a
        missing protected list already raises here and the run stops before any action. */
    method LoadCurrentResource(code: string, body: Props) returns (outcome: Outcome<JcrFailure>)
      modifies this
      ensures exist <==> code == "200"
      ensures current == (if code == "200" then body else map[])
      ensures outcome == (if PropertiesDiff(append, current, desired, protectedRaw).None? then Fail(LookupRaised) else Pass)
      ensures posts == old(posts)
    {
      exist := code == "200";
      current := if exist then body else map[];
      var logged := ComputePropertiesDiff();
      outcome := if logged.None? then Fail(LookupRaised) else Pass;
    }

    /** One run of the provider: Chef loads the current resource, then runs `action_create`
        only when the load did not raise. `getCode` and `body` answer the node's JSON
        rendering, `postCode` answers the post. */
    method Converge(getCode: string, body: Props, postCode: string) returns (outcome: Outcome<JcrFailure>)
      modifies this
      ensures exist <==> getCode == "200"
      ensures current == (if getCode == "200" then body else map[])
      ensures var d := PropertiesDiff(append, current, desired, protectedRaw);
              && (d.None? ==> posts == old(posts) && outcome == Fail(LookupRaised))
              && (d.Some? && !exist ==> posts == old(posts) + [desired]
                                        && outcome == (if Accepted(postCode) then Pass else Fail(ModifyFailed(postCode))))
              && (d == Some(map[]) && exist ==> posts == old(posts) && outcome == Pass)
              && (d.Some? && d.value != map[] && exist ==>
                    posts == old(posts) + [d.value]
                    && outcome == (if Accepted(postCode) then Pass else Fail(ModifyFailed(postCode))))
    {
      outcome := LoadCurrentResource(getCode, body);
      if outcome.Fail? {
        return;
      }
      outcome := ActionCreate(postCode);
    }

    /** `regular_diff`: walk the merged properties and keep each entry whose value differs
        from the current one. */
    method ComputeRegularDiff() returns (diff: Props)
      ensures diff == RegularDiff(current, desired)
    {
      var merged := current + desired;
      var todo := merged.Keys;
      diff := map[];
      while todo != {}
        invariant todo <= merged.Keys
        invariant forall k :: k in diff <==> k in merged && k !in todo && Get(current, k) != merged[k]
        invariant forall k :: k in diff ==> diff[k] == merged[k]
        decreases |todo|
      {
        var k :| k in todo;
        if Get(current, k) != merged[k] {
          diff := diff[k := merged[k]];
        }
        todo := todo - {k};
      }
      assert diff.Keys == RegularDiff(current, desired).Keys;
    }

    /** `force_replace_diff`: first the desired entries that differ, then a marker for each
        current property whose desired value is missing, nil or false. */
    method ComputeForceReplaceDiff() returns (diff: Props)
      ensures diff == ForceReplaceDiff(current, desired)
    {
      diff := ComputeUpdates();
      diff := AddMarkers(diff);
    }

    /** The second loop of `force_replace_diff`: a marker for each current property whose
        desired value is missing, nil or false, written over `diff`. */
    method AddMarkers(updates: Props) returns (diff: Props)
      ensures diff == updates + Markers(current, desired)
    {
      diff := updates;
      ghost var marks: Props := map[];
      var pending := current.Keys;
      while pending != {}
        invariant pending <= current.Keys
        invariant marks == MarkersAmong(current, desired, current.Keys - pending)
        invariant diff == updates + marks
        decreases |pending|
      {
        var j :| j in pending;
        MarkersAmongAdd(current, desired, current.Keys - pending, j);
        if !Truthy(Get(desired, j)) {
          MergeUpdate(updates, marks, Marker(j), Str(""));
          diff := diff[Marker(j) := Str("")];
          marks := marks[Marker(j) := Str("")];
        }
        assert current.Keys - (pending - {j}) == (current.Keys - pending) + {j};
        pending := pending - {j};
      }
      assert current.Keys - pending == current.Keys;
    }

    /** The first loop of `force_replace_diff`: the desired entries whose current value differs. */
    method ComputeUpdates() returns (diff: Props)
      ensures diff == Updates(current, desired)
    {
      var todo := desired.Keys;
      diff := map[];
      while todo != {}
        invariant todo <= desired.Keys
        invariant forall k :: k in diff <==> k in desired && k !in todo && Get(current, k) != desired[k]
        invariant forall k :: k in diff ==> diff[k] == desired[k]
        decreases |todo|
      {
        var k :| k in todo;
        if Get(current, k) != desired[k] {
          diff := diff[k := desired[k]];
        }
        todo := todo - {k};
      }
      assert diff.Keys == Updates(current, desired).Keys;
    }

    /** `properties_diff`: the diff of the configured mode, filtered. */
    method ComputePropertiesDiff() returns (diff: Option<Props>)
      ensures diff == PropertiesDiff(append, current, desired, protectedRaw)
    {
      var all: Props;
      if append {
        all := ComputeRegularDiff();
      } else {
        all := ComputeForceReplaceDiff();
      }
      diff := DeleteNonEditable(all);
    }

    /** The `delete_if` of `properties_diff`: drop each entry whose name without `@Delete`
        is not editable. The lookup of the protected list raises (`None`) at the first entry
        that needs it when the answer has none. */
    method DeleteNonEditable(all: Props) returns (diff: Option<Props>)
      ensures diff == FilterDiff(all, protectedRaw)
    {
      var kept := all;
      var todo := all.Keys;
      while todo != {}
        invariant todo <= all.Keys
        invariant kept.Keys <= all.Keys
        invariant forall k :: k in kept ==> kept[k] == all[k]
        invariant forall k :: k in all && k !in todo ==> EditableProperty(StripDelete(k), protectedRaw).Some?
        invariant forall k :: k in all ==> (k in kept <==> k in todo || EditableProperty(StripDelete(k), protectedRaw) == Some(true))
        decreases |todo|
      {
        var k :| k in todo;
        var editable := EditableProperty(StripDelete(k), protectedRaw);
        if editable.None? {
          FilterDiffRaises(all, protectedRaw, k);
          return None;
        }
        if !editable.value {
          kept := kept - {k};
        }
        todo := todo - {k};
      }
      FilterDiffKeeps(all, protectedRaw);
      var f := FilterDiff(all, protectedRaw).value;
      assert kept.Keys == f.Keys;
      assert forall k :: k in kept ==> kept[k] == f[k];
      assert kept == f;
      return Some(kept);
    }

    /** `modify_node`: post the payload; any answer not starting with "20" stops the run. */
    method ModifyNode(payload: Props, code: string) returns (outcome: Outcome<JcrFailure>)
      modifies this
      ensures posts == old(posts) + [payload]
      ensures outcome == (if Accepted(code) then Pass else Fail(ModifyFailed(code)))
      ensures exist == old(exist) && current == old(current)
    {
      posts := posts + [payload];
      if !Accepted(code) {
        return Fail(ModifyFailed(code));
      }
      return Pass;
    }

    /** `action_create`: a missing node gets every desired property; an existing one gets the
        diff, and nothing at all when the diff is empty. */
    method ActionCreate(code: string) returns (outcome: Outcome<JcrFailure>)
      modifies this
      ensures !exist ==> posts == old(posts) + [desired]
                          && outcome == (if Accepted(code) then Pass else Fail(ModifyFailed(code)))
      ensures exist ==>
                var d := PropertiesDiff(append, current, desired, protectedRaw);
                && (d.None? ==> posts == old(posts) && outcome == Fail(LookupRaised))
                && (d == Some(map[]) ==> posts == old(posts) && outcome == Pass)
                && (d.Some? && d.value != map[] ==>
                      posts == old(posts) + [d.value]
                      && outcome == (if Accepted(code) then Pass else Fail(ModifyFailed(code))))
      ensures exist == old(exist) && current == old(current)
    {
      if !exist {
        outcome := ModifyNode(desired, code);
        return;
      }
      var payload := ComputePropertiesDiff();
      if payload.None? {
        return Fail(LookupRaised);
      }
      if payload.value == map[] {
        return Pass;
      }
      outcome := ModifyNode(payload.value, code);
    }
  }
}
