/** The two recursive profile merges of core/config.py. */
module ProfileMerge {
  import opened Wrappers

  datatype Json =
    | Null
    | Bool(flag: bool)
    | Number(number: real)
    | Text(text: string)
    | Array(items: seq<Json>)
    | Object(fields: map<string, Json>)

  /** source laid over target: target's keys missing from source are kept, objects present
      on both sides are merged, and otherwise source wins. */
  function Merge(target: Json, source: Json): (merged: Json)
    requires target.Object? && source.Object?
    ensures merged.Object? && merged.fields.Keys == target.fields.Keys + source.fields.Keys
    decreases target
  {
    Object(map k | k in target.fields.Keys + source.fields.Keys ::
      if k !in source.fields then target.fields[k]
      else if k in target.fields && target.fields[k].Object? && source.fields[k].Object?
      then Merge(target.fields[k], source.fields[k])
      else source.fields[k])
  }

  /** Every key of target, at every level where both sides are objects, is in source. */
  predicate Covers(source: Json, target: Json)
    requires target.Object? && source.Object?
    decreases target
  {
    forall k :: k in target.fields ==>
      k in source.fields &&
      (target.fields[k].Object? && source.fields[k].Object? ==> Covers(source.fields[k], target.fields[k]))
  }

  /** A complete profile is unchanged by merging ... */
  lemma {:induction false} CoveredIsUnchanged(target: Json, source: Json)
    requires target.Object? && source.Object? && Covers(source, target)
    ensures Merge(target, source) == source
    decreases target
  {
    forall k | k in target.fields && target.fields[k].Object? && source.fields[k].Object?
      ensures Merge(target.fields[k], source.fields[k]) == source.fields[k] {
      CoveredIsUnchanged(target.fields[k], source.fields[k]);
    }
    assert Merge(target, source).fields == source.fields;
  }

  /** ... and only a complete one is. */
  lemma {:induction false} UnchangedIsCovered(target: Json, source: Json)
    requires target.Object? && source.Object? && Merge(target, source) == source
    ensures Covers(source, target)
    decreases target
  {
    var m := Merge(target, source);
    forall k | k in target.fields
      ensures k in source.fields &&
        (target.fields[k].Object? && source.fields[k].Object? ==> Covers(source.fields[k], target.fields[k])) {
      assert k in m.fields;
      if target.fields[k].Object? && source.fields[k].Object? {
        assert m.fields[k] == Merge(target.fields[k], source.fields[k]);
        UnchangedIsCovered(target.fields[k], source.fields[k]);
      }
    }
  }

  lemma {:induction false} CoversItself(j: Json)
    requires j.Object?
    ensures Covers(j, j)
  {
    forall k | k in j.fields && j.fields[k].Object? ensures Covers(j.fields[k], j.fields[k]) {
      CoversItself(j.fields[k]);
    }
  }

  lemma {:induction false} MergeCovers(target: Json, source: Json)
    requires target.Object? && source.Object?
    ensures Covers(Merge(target, source), target)
    decreases target
  {
    var m := Merge(target, source);
    forall k | k in target.fields && target.fields[k].Object? && m.fields[k].Object?
      ensures Covers(m.fields[k], target.fields[k]) {
      if k in source.fields {
        if source.fields[k].Object? {
          MergeCovers(target.fields[k], source.fields[k]);
        }
      } else {
        CoversItself(target.fields[k]);
      }
    }
  }

  /** Normalizing a normalized profile changes nothing. */
  lemma MergeIsIdempotent(target: Json, source: Json)
    requires target.Object? && source.Object?
    ensures Merge(target, Merge(target, source)) == Merge(target, source)
  {
    MergeCovers(target, source);
    CoveredIsUnchanged(target, Merge(target, source));
  }

  // ----- The two implementations -----

  lemma MergeAt(target: Json, source: Json, k: string)
    requires target.Object? && source.Object? && k in target.fields.Keys + source.fields.Keys
    ensures Merge(target, source).fields[k] ==
      if k !in source.fields then target.fields[k]
      else if k in target.fields && target.fields[k].Object? && source.fields[k].Object?
      then Merge(target.fields[k], source.fields[k])
      else source.fields[k]
  {
  }

  predicate Uncovered(source: Json, target: Json, k: string)
    requires target.Object? && source.Object? && k in target.fields
  {
    k !in source.fields ||
    (target.fields[k].Object? && source.fields[k].Object? && !Covers(source.fields[k], target.fields[k]))
  }

  lemma CoversIffNoneUncovered(source: Json, target: Json)
    requires target.Object? && source.Object?
    ensures Covers(source, target) <==> forall k :: k in target.fields ==> !Uncovered(source, target, k)
  {
  }

  /** merge_dict: walks the target's keys, noting whether any was missing from the source,
      then adds the source's remaining keys. */
  method MergeDict(target: Json, source: Json) returns (merged: Json, changed: bool)
    requires target.Object? && source.Object?
    ensures merged == Merge(target, source) && changed == !Covers(source, target)
    decreases target
  {
    hide Merge, Covers;
    var fields: map<string, Json> := map[];
    changed := false;
    var left := target.fields.Keys;
    while left != {}
      invariant left <= target.fields.Keys && fields.Keys == target.fields.Keys - left
      invariant forall k :: k in fields ==> fields[k] == Merge(target, source).fields[k]
      invariant changed <==> exists k :: k in fields && Uncovered(source, target, k)
      decreases left
    {
      var key :| key in left;
      left := left - {key};
      MergeAt(target, source, key);
      if key !in source.fields {
        fields := fields[key := target.fields[key]];
        changed := true;
      } else if target.fields[key].Object? && source.fields[key].Object? {
        var inner, innerChanged := MergeDict(target.fields[key], source.fields[key]);
        fields := fields[key := inner];
        changed := changed || innerChanged;
      } else {
        fields := fields[key := source.fields[key]];
      }
    }
    CoversIffNoneUncovered(source, target);
    left := source.fields.Keys;
    while left != {}
      invariant left <= source.fields.Keys && fields.Keys == target.fields.Keys + (source.fields.Keys - left)
      invariant forall k :: k in fields ==> fields[k] == Merge(target, source).fields[k]
      decreases left
    {
      var key :| key in left;
      left := left - {key};
      MergeAt(target, source, key);
      if key !in fields {
        fields := fields[key := source.fields[key]];
      }
    }
    assert fields == Merge(target, source).fields;
    merged := Object(fields);
  }

  /** _merge_profile_overrides: copies the base, then walks the override's keys. */
  method MergeOverrides(base: Json, override: Json) returns (merged: Json)
    requires base.Object? && override.Object?
    ensures merged == Merge(base, override)
    decreases base
  {
    hide Merge;
    var fields := base.fields;
    var left := override.fields.Keys;
    while left != {}
      invariant left <= override.fields.Keys && fields.Keys == base.fields.Keys + (override.fields.Keys - left)
      invariant forall k :: k in override.fields && k !in left ==> fields[k] == Merge(base, override).fields[k]
      invariant forall k :: k in base.fields && (k in left || k !in override.fields) ==> fields[k] == base.fields[k]
      decreases left
    {
      var key :| key in left;
      left := left - {key};
      MergeAt(base, override, key);
      if override.fields[key].Object? && key in fields && fields[key].Object? {
        var inner := MergeOverrides(fields[key], override.fields[key]);
        fields := fields[key := inner];
      } else {
        fields := fields[key := override.fields[key]];
      }
    }
    forall k | k in base.fields && k !in override.fields ensures fields[k] == Merge(base, override).fields[k] {
      MergeAt(base, override, k);
    }
    assert fields == Merge(base, override).fields;
    merged := Object(fields);
  }

  /** normalize_runtime_profile with its defaults as an argument: anything but an object is
      treated as an empty one. */
  function Incoming(profile: Json): (r: Json)
    ensures r.Object?
  {
    if profile.Object? then profile else Object(map[])
  }

  method NormalizeRuntimeProfile(defaults: Json, profile: Json) returns (normalized: Json, changed: bool)
    requires defaults.Object?
    ensures normalized == Merge(defaults, Incoming(profile))
    ensures !changed <==> normalized == Incoming(profile)
    ensures Merge(defaults, normalized) == normalized
    ensures !profile.Object? ==> normalized == defaults
  {
    var incoming := Incoming(profile);
    assert Merge(defaults, Object(map[])).fields == defaults.fields;
    normalized, changed := MergeDict(defaults, incoming);
    if !changed {
      CoveredIsUnchanged(defaults, incoming);
    }
    if normalized == incoming {
      UnchangedIsCovered(defaults, incoming);
    }
    MergeIsIdempotent(defaults, incoming);
  }

  /** load_runtime_profile: the profile file, then an optional override file, then
      validation, which rejects but never alters. */
  method LoadRuntimeProfile(defaults: Json, file: Json, override: Option<Json>, valid: Json -> bool)
    returns (r: Result<Json>)
    requires defaults.Object?
    ensures var first := Merge(defaults, Incoming(file));
      var loaded := if override.Some? then Merge(defaults, Merge(first, Incoming(override.value))) else first;
      r == if valid(loaded) then Ok(loaded) else Refused
    ensures r.Ok? ==> r.value.Object? && Merge(defaults, r.value) == r.value
  {
    var normalized, changed := NormalizeRuntimeProfile(defaults, file);
    if override.Some? {
      normalized := MergeOverrides(normalized, Incoming(override.value));
      normalized, changed := NormalizeRuntimeProfile(defaults, normalized);
    }
    if !valid(normalized) {
      return Refused;
    }
    return Ok(normalized);
  }

  // ----- When an override leaves a profile to be normalized again -----

  /** Where an override has an object for an object among the defaults, it is laid over an
      object, or it holds the default keys itself. */
  predicate Fits(defaults: Json, profile: Json, override: Json)
    requires defaults.Object? && profile.Object? && override.Object?
    decreases defaults
  {
    forall k |
      && k in defaults.fields && k in override.fields && k in profile.fields
      && defaults.fields[k].Object? && override.fields[k].Object? ::
      if profile.fields[k].Object? then Fits(defaults.fields[k], profile.fields[k], override.fields[k])
      else Covers(override.fields[k], defaults.fields[k])
  }

  lemma {:induction false} LaidCoversExactlyWhen(defaults: Json, profile: Json, override: Json)
    requires defaults.Object? && profile.Object? && override.Object? && Covers(profile, defaults)
    ensures Covers(Merge(profile, override), defaults) <==> Fits(defaults, profile, override)
    decreases defaults
  {
    var laid := Merge(profile, override);
    forall k | k in defaults.fields && k in override.fields
                 && defaults.fields[k].Object? && override.fields[k].Object?
      ensures Covers(laid.fields[k], defaults.fields[k]) <==>
        if profile.fields[k].Object? then Fits(defaults.fields[k], profile.fields[k], override.fields[k])
        else Covers(override.fields[k], defaults.fields[k]) {
      if profile.fields[k].Object? {
        LaidCoversExactlyWhen(defaults.fields[k], profile.fields[k], override.fields[k]);
      }
    }
  }

  /** The second normalization of load_runtime_profile changes nothing exactly when the
      override fits the normalized profile. */
  lemma SecondNormalizationExactlyWhen(defaults: Json, file: Json, override: Json)
    requires defaults.Object? && file.Object? && override.Object?
    ensures var first := Merge(defaults, file); var laid := Merge(first, override);
      Merge(defaults, laid) == laid <==> Fits(defaults, first, override)
  {
    hide Merge, Covers, Fits;
    var first := Merge(defaults, file);
    var laid := Merge(first, override);
    MergeCovers(defaults, file);
    LaidCoversExactlyWhen(defaults, first, override);
    if Covers(laid, defaults) {
      CoveredIsUnchanged(defaults, laid);
    }
    if Merge(defaults, laid) == laid {
      UnchangedIsCovered(defaults, laid);
    }
  }

  /** At every level a profile file has an object, or nothing, where the defaults have a
      nonempty object. */
  predicate Shaped(defaults: Json, file: Json)
    requires defaults.Object? && file.Object?
    decreases defaults
  {
    forall k :: k in defaults.fields && k in file.fields && defaults.fields[k].Object? ==>
      if file.fields[k].Object? then Shaped(defaults.fields[k], file.fields[k])
      else defaults.fields[k].fields == map[]
  }

  lemma {:induction false} CoveringFits(defaults: Json, profile: Json, override: Json)
    requires defaults.Object? && profile.Object? && override.Object?
    requires Covers(profile, defaults) && Shaped(defaults, profile)
    ensures Fits(defaults, profile, override)
    decreases defaults
  {
    forall k | k in defaults.fields && k in override.fields && k in profile.fields
                 && defaults.fields[k].Object? && override.fields[k].Object? && profile.fields[k].Object?
      ensures Fits(defaults.fields[k], profile.fields[k], override.fields[k]) {
      CoveringFits(defaults.fields[k], profile.fields[k], override.fields[k]);
    }
  }

  lemma {:induction false} ShapedItself(j: Json)
    requires j.Object?
    ensures Shaped(j, j)
  {
    forall k | k in j.fields && j.fields[k].Object? ensures Shaped(j.fields[k], j.fields[k]) {
      ShapedItself(j.fields[k]);
    }
  }

  lemma {:induction false} MergeKeepsShape(defaults: Json, file: Json)
    requires defaults.Object? && file.Object?
    ensures Shaped(defaults, Merge(defaults, file)) <==> Shaped(defaults, file)
    decreases defaults
  {
    var m := Merge(defaults, file);
    forall k | k in defaults.fields && defaults.fields[k].Object? && m.fields[k].Object?
      ensures Shaped(defaults.fields[k], m.fields[k]) <==>
        k !in file.fields || Shaped(defaults.fields[k], file.fields[k]) {
      if k in file.fields {
        MergeKeepsShape(defaults.fields[k], file.fields[k]);
      } else {
        ShapedItself(defaults.fields[k]);
      }
    }
  }

  /** An override that does not fit, built along the path to where the file lacks an object. */
  lemma {:induction false} Misfit(defaults: Json, profile: Json) returns (override: Json)
    requires defaults.Object? && profile.Object? && Covers(profile, defaults) && !Shaped(defaults, profile)
    ensures override.Object? && !Fits(defaults, profile, override)
    decreases defaults
  {
    var k :| k in defaults.fields && k in profile.fields && defaults.fields[k].Object?
             && if profile.fields[k].Object? then !Shaped(defaults.fields[k], profile.fields[k])
                else defaults.fields[k].fields != map[];
    if profile.fields[k].Object? {
      var inner := Misfit(defaults.fields[k], profile.fields[k]);
      override := Object(map[k := inner]);
    } else {
      var missing :| missing in defaults.fields[k].fields;
      override := Object(map[k := Object(map[])]);
      assert !Covers(override.fields[k], defaults.fields[k]);
    }
  }

  /** Whatever the override, the second normalization is superfluous exactly when the profile
      file has the shape of the defaults. */
  lemma NeverNeededExactlyWhen(defaults: Json, file: Json)
    requires defaults.Object? && file.Object?
    ensures Shaped(defaults, file) <==> forall override: Json | override.Object? ::
      var laid := Merge(Merge(defaults, file), override); Merge(defaults, laid) == laid
  {
    hide Merge, Covers, Fits, Shaped;
    var first := Merge(defaults, file);
    MergeCovers(defaults, file);
    MergeKeepsShape(defaults, file);
    if Shaped(defaults, file) {
      forall override: Json | override.Object?
        ensures var laid := Merge(first, override); Merge(defaults, laid) == laid {
        CoveringFits(defaults, first, override);
        SecondNormalizationExactlyWhen(defaults, file, override);
      }
    } else {
      var override := Misfit(defaults, first);
      SecondNormalizationExactlyWhen(defaults, file, override);
    }
  }

  /** An instance: the file has null for an object of the defaults, and the override an
      object that lacks its keys. */
  lemma SecondNormalizationIsNeeded()
    ensures exists defaults: Json, file: Json, override: Json ::
      defaults.Object? && file.Object? && override.Object?
      && var laid := Merge(Merge(defaults, file), override); Merge(defaults, laid) != laid
  {
    var defaults := Object(map["api" := Object(map["port" := Number(1.0)])]);
    var file := Object(map["api" := Null]);
    var override := Object(map["api" := Object(map[])]);
    var first := Merge(defaults, file);
    MergeAt(defaults, file, "api");
    var laid := Merge(first, override);
    MergeAt(first, override, "api");
    assert laid.fields["api"] == Object(map[]);
    var again := Merge(defaults, laid);
    MergeAt(defaults, laid, "api");
    assert "port" in again.fields["api"].fields && "port" !in laid.fields["api"].fields;
  }
}
