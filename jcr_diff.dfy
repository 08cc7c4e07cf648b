/** What the `cq_jcr` provider posts to a content node: the append-mode and replace-mode
    diffs between the node's current properties and the desired ones, and the filter that
    drops automatically maintained and protected properties from the diff. */
module JcrDiff {
  import opened Outcomes

  /** A property value as the node's JSON rendering and the recipe give it. */
  datatype Value = Null | Bool(b: bool) | Str(s: string) | Int(i: int) | Arr(items: seq<Value>)

  type Props = map<string, Value>

  /** `Hash#[]`: a missing key reads as nil. */
  function Get(m: Props, k: string): Value {
    if k in m then m[k] else Null
  }

  /** Ruby truthiness: every value but nil and false. */
  predicate Truthy(v: Value) {
    v != Null && v != Bool(false)
  }

  /** `merged_new_resource_properties`: the current properties, overridden by the desired ones. */
  function Merged(current: Props, desired: Props): (m: Props)
    ensures m.Keys == current.Keys + desired.Keys
    ensures forall k :: k in desired ==> m[k] == desired[k]
    ensures forall k :: k in current && k !in desired ==> m[k] == current[k]
  {
    current + desired
  }

  /** `regular_diff`: every merged entry whose value differs from the current one. */
  function RegularDiff(current: Props, desired: Props): (r: Props)
    ensures forall k :: k in r ==> k in desired && r[k] == desired[k] && Get(current, k) != desired[k]
  {
    var merged := Merged(current, desired);
    map k | k in merged && Get(current, k) != merged[k] :: merged[k]
  }

  /** The desired entries that differ from the current ones. */
  function Updates(current: Props, desired: Props): (r: Props)
    ensures r.Keys <= desired.Keys
    ensures forall k :: k in desired ==> Get(current + r, k) == desired[k]
  {
    map k | k in desired && Get(current, k) != desired[k] :: desired[k]
  }

  /** The append-mode diff holds exactly the desired entries whose current value differs:
      an entry only the node has never shows up. */
  lemma {:induction false} RegularDiffIsUpdates(current: Props, desired: Props)
    ensures RegularDiff(current, desired) == Updates(current, desired)
  {
    assert RegularDiff(current, desired).Keys == Updates(current, desired).Keys;
  }

  /** The append-mode diff is empty exactly when every desired entry already reads the same
      on the node. */
  lemma {:induction false} RegularDiffEmptyIff(current: Props, desired: Props)
    ensures RegularDiff(current, desired) == map[] <==> forall k :: k in desired ==> Get(current, k) == desired[k]
  {
    RegularDiffIsUpdates(current, desired);
    if RegularDiff(current, desired) == map[] {
      forall k | k in desired ensures Get(current, k) == desired[k] {
        assert k !in Updates(current, desired);
      }
    }
  }

  /** Posting the append-mode diff brings every desired property to its desired value and
      leaves every other property as it was. */
  lemma {:induction false} RegularDiffReachesDesired(current: Props, desired: Props)
    ensures var after := current + RegularDiff(current, desired);
            && (forall k :: k in desired ==> Get(after, k) == desired[k])
            && (forall k :: k !in desired ==> Get(after, k) == Get(current, k))
  {
    RegularDiffIsUpdates(current, desired);
  }

  /** The suffix that asks the Sling POST servlet to delete a property. */
  const DeleteSuffix := "@Delete"

  /** `"#{k}@Delete"`. */
  function Marker(k: string): string {
    k + DeleteSuffix
  }

  /** The deletion markers of replace mode: one for each current property whose desired value
      is missing, nil or false. */
  function Markers(current: Props, desired: Props): (r: Props)
    ensures forall k :: k in r ==> r[k] == Str("")
    ensures forall j :: j in current && !Truthy(Get(desired, j)) ==> Marker(j) in r
  {
    MarkersAmong(current, desired, current.Keys)
  }

  /** The deletion markers of the current properties among `names`. */
  function MarkersAmong(current: Props, desired: Props, names: set<string>): Props {
    map j | j in names && j in current && !Truthy(Get(desired, j)) :: Marker(j) := Str("")
  }

  /** Overwriting one entry of a merge is overwriting it in the right-hand map. */
  lemma MergeUpdate(a: Props, b: Props, x: string, v: Value)
    ensures (a + b)[x := v] == a + b[x := v]
  {
  }

  /** Looking at one more current property adds its marker, if it gets one. */
  lemma MarkersAmongAdd(current: Props, desired: Props, names: set<string>, j: string)
    requires j in current
    ensures MarkersAmong(current, desired, names + {j})
         == if Truthy(Get(desired, j)) then MarkersAmong(current, desired, names)
            else MarkersAmong(current, desired, names)[Marker(j) := Str("")]
  {
    var m := MarkersAmong(current, desired, names + {j});
    var n := MarkersAmong(current, desired, names);
    if Truthy(Get(desired, j)) {
      assert m.Keys == n.Keys;
    } else {
      assert m.Keys == n.Keys + {Marker(j)};
    }
  }

  /** `force_replace_diff`: the differing desired entries first, then the deletion markers,
      a marker overwriting a desired entry of the same name. */
  function ForceReplaceDiff(current: Props, desired: Props): (r: Props)
    ensures forall k :: k in r ==> r[k] == Str("") || (k in desired && r[k] == desired[k])
    ensures forall k :: k in desired && Get(current, k) != desired[k] ==> k in r
  {
    Updates(current, desired) + Markers(current, desired)
  }

  /** `k` is the marker of a current property whose desired value is missing, nil or false. */
  predicate IsMarkerFor(current: Props, desired: Props, k: string) {
    |k| >= |DeleteSuffix| && k[|k| - |DeleteSuffix|..] == DeleteSuffix
    && k[..|k| - |DeleteSuffix|] in current && !Truthy(Get(desired, k[..|k| - |DeleteSuffix|]))
  }

  lemma MarkerParts(j: string)
    ensures |Marker(j)| >= |DeleteSuffix|
    ensures Marker(j)[..|Marker(j)| - |DeleteSuffix|] == j
    ensures Marker(j)[|Marker(j)| - |DeleteSuffix|..] == DeleteSuffix
  {
  }

  lemma {:induction false} MarkersKeys(current: Props, desired: Props, k: string)
    ensures k in Markers(current, desired) <==> IsMarkerFor(current, desired, k)
    ensures k in Markers(current, desired) ==> Markers(current, desired)[k] == Str("")
  {
    if IsMarkerFor(current, desired, k) {
      var j := k[..|k| - |DeleteSuffix|];
      assert Marker(j) == k;
    }
    if k in Markers(current, desired) {
      var j :| j in current && !Truthy(Get(desired, j)) && Marker(j) == k;
      MarkerParts(j);
    }
  }

  /** The replace-mode diff holds a marker `k@Delete` mapped to the empty string for each
      current property whose desired value is missing, nil or false, and otherwise the
      desired entries whose current value differs, with their desired values. */
  lemma {:induction false} ForceReplaceEntries(current: Props, desired: Props, k: string)
    ensures var f := ForceReplaceDiff(current, desired);
            && (k in f <==> IsMarkerFor(current, desired, k) || (k in desired && Get(current, k) != desired[k]))
            && (IsMarkerFor(current, desired, k) ==> f[k] == Str(""))
            && (k in f && !IsMarkerFor(current, desired, k) ==> f[k] == desired[k])
  {
    MarkersKeys(current, desired, k);
  }

  /** Replace mode adds the deletion markers to the append-mode diff. */
  lemma {:induction false} ForceExtendsRegular(current: Props, desired: Props)
    ensures ForceReplaceDiff(current, desired) == RegularDiff(current, desired) + Markers(current, desired)
  {
    RegularDiffIsUpdates(current, desired);
  }

  /** When every current property keeps a truthy desired value, both modes post the same diff. */
  lemma {:induction false} ForceEqualsRegularWhenNothingRemoved(current: Props, desired: Props)
    requires forall j :: j in current ==> Truthy(Get(desired, j))
    ensures ForceReplaceDiff(current, desired) == RegularDiff(current, desired)
  {
    ForceExtendsRegular(current, desired);
    assert Markers(current, desired) == map[];
  }

  /** A current property whose desired value is nil or false is marked for deletion even
      when the desired map names it. */
  lemma {:induction false} FalsyDesiredGetsMarker(current: Props, desired: Props, j: string)
    requires j in current && (j !in desired || desired[j] == Null || desired[j] == Bool(false))
    ensures Marker(j) in ForceReplaceDiff(current, desired)
    ensures ForceReplaceDiff(current, desired)[Marker(j)] == Str("")
  {
    assert Marker(j) in Markers(current, desired);
  }

  /** A node that already holds exactly the desired properties still gets a marker for each
      property that is nil or false, so replace mode never settles on such a node. */
  lemma {:induction false} SelfDiffMarksFalsy(props: Props)
    ensures ForceReplaceDiff(props, props) == Markers(props, props)
    ensures forall j :: j in props && !Truthy(props[j]) ==> Marker(j) in ForceReplaceDiff(props, props)
  {
    assert Updates(props, props) == map[];
    forall j | j in props && !Truthy(props[j]) ensures Marker(j) in Markers(props, props) {
      assert !Truthy(Get(props, j));
    }
  }

  /** `gsub(/@Delete/, '')`: every non-overlapping occurrence, from the left, removed. */
  function StripDelete(s: string): (r: string)
    ensures |r| <= |s|
  {
    if |s| >= |DeleteSuffix| && s[..|DeleteSuffix|] == DeleteSuffix then StripDelete(s[|DeleteSuffix|..])
    else if s == [] then []
    else [s[0]] + StripDelete(s[1..])
  }

  /** No occurrence of `@Delete` starts inside `k` and ends inside an appended `@Delete`: the
      `@` at the head appears nowhere else in it. */
  lemma NoStraddle(k: string)
    requires 0 < |k| < |DeleteSuffix|
    ensures (k + DeleteSuffix)[..|DeleteSuffix|] != DeleteSuffix
  {
    var s := k + DeleteSuffix;
    assert s[|k|] == '@';
    assert DeleteSuffix[|k|] != '@';
  }

  /** Stripping a marker gives what stripping its property name gives. */
  lemma {:induction false} StripDeleteMarker(k: string)
    ensures StripDelete(Marker(k)) == StripDelete(k)
  {
    var s := Marker(k);
    var n := |DeleteSuffix|;
    if k == [] {
      assert s == DeleteSuffix;
      assert s[n..] == [];
    } else if |k| >= n && k[..n] == DeleteSuffix {
      assert s[..n] == DeleteSuffix;
      assert s[n..] == Marker(k[n..]);
      StripDeleteMarker(k[n..]);
    } else {
      if |k| < n {
        NoStraddle(k);
      } else {
        assert s[..n] == k[..n];
      }
      assert s[1..] == Marker(k[1..]);
      StripDeleteMarker(k[1..]);
    }
  }

  /** The properties `editable_property` always refuses: those the repository maintains. */
  const AutoProperties := ["jcr:created", "jcr:createdBy", "jcr:lastModified", "jcr:lastModifiedBy",
                           "cq:lastModified", "cq:lastModifiedBy"]

  const PrimaryType := "jcr:primaryType"

  /** `protected_properties`: the node type's `rep:protectedProperties` list, in order,
      without `jcr:primaryType`. */
  function ProtectedProperties(raw: seq<string>): (r: seq<string>)
    ensures |r| <= |raw|
    ensures forall n :: n in r <==> n in raw && n != PrimaryType
  {
    if raw == [] then []
    else if raw[0] == PrimaryType then ProtectedProperties(raw[1..])
    else [raw[0]] + ProtectedProperties(raw[1..])
  }

  /** `editable_property`: `None` when the protected list is looked up (the name is not an
      automatic property) but the node type's answer has no `rep:protectedProperties`. */
  function EditableProperty(name: string, raw: Option<seq<string>>): (r: Option<bool>)
    ensures name in AutoProperties ==> r == Some(false)
    ensures r.None? <==> name !in AutoProperties && raw.None?
  {
    if name in AutoProperties then Some(false)
    else if raw.None? then None
    else Some(name !in ProtectedProperties(raw.value))
  }

  /** A name is editable exactly when it is not automatic and, unless it is the primary type,
      not protected; the lookup fails exactly when it is needed and missing. */
  lemma {:induction false} EditableIff(name: string, raw: Option<seq<string>>)
    ensures EditableProperty(name, raw).None? <==> name !in AutoProperties && raw.None?
    ensures EditableProperty(name, raw) == Some(true)
        <==> name !in AutoProperties && raw.Some? && (name == PrimaryType || name !in raw.value)
  {
  }

  /** The primary type can always be set, whatever the node type declares protected. */
  lemma {:induction false} PrimaryTypeEditable(raw: seq<string>)
    ensures EditableProperty(PrimaryType, Some(raw)) == Some(true)
  {
    assert PrimaryType !in ProtectedProperties(raw);
    assert PrimaryType !in AutoProperties;
  }

  /** The `delete_if` of `properties_diff`: keep the entries whose name, without `@Delete`,
      is editable; `None` when some entry needs the missing protected list. */
  function FilterDiff(diff: Props, raw: Option<seq<string>>): (r: Option<Props>)
    ensures r.None? <==> raw.None? && exists k :: k in diff && StripDelete(k) !in AutoProperties
    ensures r.Some? ==> r.value.Keys <= diff.Keys && forall k :: k in r.value ==> r.value[k] == diff[k]
    ensures r.Some? ==> forall k :: k in r.value ==> EditableProperty(StripDelete(k), raw) == Some(true)
  {
    if raw.None? && exists k :: k in diff && StripDelete(k) !in AutoProperties then None
    else Some(map k | k in diff && EditableProperty(StripDelete(k), raw) == Some(true) :: diff[k])
  }

  /** The filter raises as soon as one entry needs the missing protected list. */
  lemma {:induction false} FilterDiffRaises(diff: Props, raw: Option<seq<string>>, k: string)
    requires k in diff && EditableProperty(StripDelete(k), raw).None?
    ensures FilterDiff(diff, raw) == None
  {
    EditableIff(StripDelete(k), raw);
  }

  /** When no entry needs a missing protected list, the filter keeps exactly the editable
      entries. */
  lemma {:induction false} FilterDiffKeeps(diff: Props, raw: Option<seq<string>>)
    requires forall k :: k in diff ==> EditableProperty(StripDelete(k), raw).Some?
    ensures FilterDiff(diff, raw).Some?
    ensures forall k :: k in FilterDiff(diff, raw).value <==> k in diff && EditableProperty(StripDelete(k), raw) == Some(true)
  {
    forall k | k in diff ensures StripDelete(k) in AutoProperties || raw.Some? {
      EditableIff(StripDelete(k), raw);
    }
  }

  /** The filter keeps exactly the entries whose stripped name is neither automatic nor
      protected (the primary type never counting as protected). */
  lemma {:induction false} FilterKeeps(diff: Props, raw: seq<string>, k: string)
    ensures var f := FilterDiff(diff, Some(raw)).value;
            k in f <==> k in diff && StripDelete(k) !in AutoProperties
                        && (StripDelete(k) == PrimaryType || StripDelete(k) !in raw)
  {
    EditableIff(StripDelete(k), Some(raw));
  }

  /** A deletion marker survives the filter exactly when its property would. */
  lemma {:induction false} MarkerFilteredLikeProperty(diff: Props, raw: Option<seq<string>>, k: string)
    requires k in diff && Marker(k) in diff
    ensures FilterDiff(diff, raw).Some? ==>
              (Marker(k) in FilterDiff(diff, raw).value <==> k in FilterDiff(diff, raw).value)
  {
    StripDeleteMarker(k);
  }

  /** `properties_diff`: the append-mode or the replace-mode diff, filtered. */
  function PropertiesDiff(append: bool, current: Props, desired: Props, raw: Option<seq<string>>): (r: Option<Props>)
    ensures r.Some? ==> forall k :: k in r.value ==> StripDelete(k) !in AutoProperties
    ensures append && r.Some? ==> r.value.Keys <= desired.Keys
  {
    FilterDiff(if append then RegularDiff(current, desired) else ForceReplaceDiff(current, desired), raw)
  }

  /** In append mode nothing is ever deleted: every posted name is a desired one, with its
      desired value. */
  lemma {:induction false} AppendPostsOnlyDesired(current: Props, desired: Props, raw: Option<seq<string>>)
    ensures var r := PropertiesDiff(true, current, desired, raw);
            r.Some? ==> forall k :: k in r.value ==> k in desired && r.value[k] == desired[k] && Get(current, k) != desired[k]
  {
    RegularDiffIsUpdates(current, desired);
  }

  /** For a node that does not exist yet the diff is computed against no properties, and
      it raises without the protected list exactly when some desired value is not nil and
      its name, with `@Delete` removed, is not automatic: such a node is never created. */
  lemma {:induction false} NewNodeNeedsProtectedList(append: bool, desired: Props)
    ensures PropertiesDiff(append, map[], desired, None).None?
        <==> exists k :: k in desired && desired[k] != Null && StripDelete(k) !in AutoProperties
  {
    var u := Updates(map[], desired);
    RegularDiffIsUpdates(map[], desired);
    assert Markers(map[], desired) == map[];
    assert ForceReplaceDiff(map[], desired) == u;
    forall k ensures k in u <==> k in desired && desired[k] != Null {
      assert Get(map[], k) == Null;
    }
  }

  /** A node that already holds the desired properties gets an empty diff in append mode,
      whatever the node type declares. */
  lemma {:induction false} AppendSettles(props: Props, raw: Option<seq<string>>)
    ensures PropertiesDiff(true, props, props, raw) == Some(map[])
  {
    RegularDiffEmptyIff(props, props);
  }
}
