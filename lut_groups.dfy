/** LUT groups: named sets of body parts that share one LUT file and one selected variant.
    LUTGroupManager keeps the groups by name and, for each grouped part, the name of its group;
    group-wide changes are passed on to a LUTManager. */
module LUTGroups {
  import opened Common
  import opened LUT

  /** `LUTGroup`: a group's name, LUT path (null until one is set), selected variant and parts. */
  class LUTGroup {
    var name: string
    var lutPath: Option<string>
    var selectedVariant: int
    var parts: set<string>

    /** A new group: variant 0, no LUT path, no parts. */
    constructor (name: string)
      ensures this.name == name && lutPath == None && selectedVariant == 0 && parts == {}
    {
      this.name := name;
      lutPath := None;
      selectedVariant := 0;
      parts := {};
    }

    method SetName(name: string)
      modifies this
      ensures this.name == name && lutPath == old(lutPath)
      ensures selectedVariant == old(selectedVariant) && parts == old(parts)
    {
      this.name := name;
    }

    /** `setLutPath`: `None` is the null path a group is reset to when its LUT is removed. */
    method SetLutPath(lutPath: Option<string>)
      modifies this
      ensures this.lutPath == lutPath && name == old(name)
      ensures selectedVariant == old(selectedVariant) && parts == old(parts)
    {
      this.lutPath := lutPath;
    }

    method SetSelectedVariant(selectedVariant: int)
      modifies this
      ensures this.selectedVariant == selectedVariant && name == old(name)
      ensures lutPath == old(lutPath) && parts == old(parts)
    {
      this.selectedVariant := selectedVariant;
    }

    method AddPart(part: string)
      modifies this
      ensures parts == old(parts) + {part} && HasPart(part)
      ensures name == old(name) && lutPath == old(lutPath) && selectedVariant == old(selectedVariant)
    {
      parts := parts + {part};
    }

    method RemovePart(part: string)
      modifies this
      ensures parts == old(parts) - {part} && !HasPart(part)
      ensures name == old(name) && lutPath == old(lutPath) && selectedVariant == old(selectedVariant)
    {
      parts := parts - {part};
    }

    predicate HasPart(part: string)
      reads this
    {
      part in parts
    }
  }

  /** `m` with every key of `keys` set to `v`, the other entries kept. */
  function Assign<V>(m: map<string, V>, keys: set<string>, v: V): map<string, V>
  {
    m + map p | p in keys :: v
  }

  /** `Assign` sets exactly the given keys and keeps every other entry. */
  lemma AssignedEntries<V>(m: map<string, V>, keys: set<string>, v: V)
    ensures Assign(m, keys, v).Keys == m.Keys + keys
    ensures forall p | p in Assign(m, keys, v) :: Assign(m, keys, v)[p] == if p in keys then v else m[p]
  {
  }

  /** Assigning one more key is one more map update. */
  lemma AssignStep<V>(m: map<string, V>, keys: set<string>, p: string, v: V)
    ensures Assign(m, keys + {p}, v) == Assign(m, keys, v)[p := v]
  {
    assert Assign(m, keys + {p}, v).Keys == Assign(m, keys, v)[p := v].Keys;
  }

  /** Taking `part` out of the members still to visit adds it to those visited, and to those
      visited within `among` when it is one of them; with none left, all were visited. */
  lemma TakeOne(members: set<string>, remaining: set<string>, part: string, among: set<string>)
    ensures part in remaining ==>
      (members - (remaining - {part})) * among ==
        (members - remaining) * among + (if part in members * among then {part} else {})
    ensures part in remaining && part in members ==> members - (remaining - {part}) == (members - remaining) + {part}
    ensures remaining == {} ==> (members - remaining) * among == members * among && members - remaining == members
  {
  }

  /** One member's turn in `setGroupLUT`: load the LUT, ignoring the outcome, then select the
      group's variant. */
  method LoadAndSelect(lutManager: LUTManager, part: string, lutFile: Option<Image>, variant: int)
    requires lutManager.Valid()
    requires lutFile.Some? ==> lutFile.value.Valid()
    modifies lutManager
    ensures lutManager.Valid()
    ensures lutManager.selectedColors == old(lutManager.selectedColors)[part := variant]
    ensures lutManager.loadedLUTs ==
              if lutFile.Some? then old(lutManager.loadedLUTs)[part := lutFile.value] else old(lutManager.loadedLUTs)
    ensures lutManager.colorMappings ==
              if lutFile.Some? then old(lutManager.colorMappings)[part := TemplateMapping(lutFile.value)]
              else old(lutManager.colorMappings)
  {
    var _ := lutManager.LoadLUT(part, lutFile);
    lutManager.SetSelectedColor(part, variant);
  }

  /** The loop of `setGroupLUT` over the members, in any order. */
  method LoadForMembers(lutManager: LUTManager, members: set<string>, lutFile: Option<Image>, variant: int)
    requires lutManager.Valid()
    requires lutFile.Some? ==> lutFile.value.Valid()
    modifies lutManager
    ensures lutManager.Valid()
    ensures lutManager.selectedColors == Assign(old(lutManager.selectedColors), members, variant)
    ensures lutManager.loadedLUTs ==
              if lutFile.Some? then Assign(old(lutManager.loadedLUTs), members, lutFile.value)
              else old(lutManager.loadedLUTs)
    ensures lutManager.colorMappings ==
              if lutFile.Some? then Assign(old(lutManager.colorMappings), members, TemplateMapping(lutFile.value))
              else old(lutManager.colorMappings)
  {
    ghost var colors0, luts0, mappings0 := lutManager.selectedColors, lutManager.loadedLUTs, lutManager.colorMappings;
    var remaining := members;
    while remaining != {}
      invariant remaining <= members
      invariant lutManager.Valid()
      invariant lutManager.selectedColors == Assign(colors0, members - remaining, variant)
      invariant lutManager.loadedLUTs ==
                  if lutFile.Some? then Assign(luts0, members - remaining, lutFile.value) else luts0
      invariant lutManager.colorMappings ==
                  if lutFile.Some? then Assign(mappings0, members - remaining, TemplateMapping(lutFile.value))
                  else mappings0
      decreases |remaining|
    {
      var part :| part in remaining;
      ghost var done := members - remaining;
      TakeOne(members, remaining, part, members);
      AssignStep(colors0, done, part, variant);
      if lutFile.Some? {
        AssignStep(luts0, done, part, lutFile.value);
        AssignStep(mappings0, done, part, TemplateMapping(lutFile.value));
      }
      LoadAndSelect(lutManager, part, lutFile, variant);
      remaining := remaining - {part};
    }
    TakeOne(members, {}, "", members);
  }

  /** The loop of `setGroupVariant`: the members that have a LUT get the variant. */
  method SelectForMembersWithLUT(lutManager: LUTManager, members: set<string>, variant: int)
    requires lutManager.Valid()
    modifies lutManager
    ensures lutManager.Valid()
    ensures lutManager.loadedLUTs == old(lutManager.loadedLUTs)
    ensures lutManager.colorMappings == old(lutManager.colorMappings)
    ensures lutManager.selectedColors ==
              Assign(old(lutManager.selectedColors), members * old(lutManager.loadedLUTs.Keys), variant)
  {
    ghost var withLUT := lutManager.loadedLUTs.Keys;
    ghost var colors0, luts0, mappings0 := lutManager.selectedColors, lutManager.loadedLUTs, lutManager.colorMappings;
    var remaining := members;
    ghost var done: set<string> := {};
    while remaining != {}
      invariant remaining <= members && done == (members - remaining) * withLUT
      invariant lutManager.Valid()
      invariant lutManager.loadedLUTs == luts0 && lutManager.colorMappings == mappings0
      invariant lutManager.selectedColors == Assign(colors0, done, variant)
      decreases |remaining|
    {
      var part :| part in remaining;
      TakeOne(members, remaining, part, withLUT);
      if lutManager.HasLUT(part) {
        AssignStep(colors0, done, part, variant);
        lutManager.SetSelectedColor(part, variant);
        done := done + {part};
      }
      remaining := remaining - {part};
    }
    TakeOne(members, {}, "", withLUT);
  }

  /** The loop of `deleteGroup` over the members: each member's entry is removed in turn. */
  method RemoveKeys(m: map<string, string>, keys: set<string>) returns (r: map<string, string>)
    ensures r == m - keys
  {
    r := m;
    var remaining := keys;
    while remaining != {}
      invariant remaining <= keys
      invariant r == m - (keys - remaining)
      decreases |remaining|
    {
      var part :| part in remaining;
      r := r - {part};
      remaining := remaining - {part};
    }
  }

  class LUTGroupManager {
    var groups: map<string, LUTGroup>
    var partToGroup: map<string, string>

    /** The same groups, every one keeping its name and selected variant, and every one other
        than `changed` keeping its LUT path. */
    twostate predicate SettingsKept(changed: string)
      reads this, groups.Values
    {
      && groups == old(groups)
      && forall g | g in groups ::
           && groups[g].name == old(groups[g].name)
           && groups[g].selectedVariant == old(groups[g].selectedVariant)
           && (g != changed ==> groups[g].lutPath == old(groups[g].lutPath))
    }

    /** The same groups, every one keeping its members. */
    twostate predicate MembersKept()
      reads this, groups.Values
    {
      groups == old(groups) && forall g | g in groups :: groups[g].parts == old(groups[g].parts)
    }

    /** Distinct names hold distinct group objects, each named by its key, and `partToGroup`
        maps a part to a group exactly when that group exists and contains the part. */
    predicate Valid()
      reads this, groups.Values
    {
      && (forall g1, g2 | g1 in groups && g2 in groups && g1 != g2 :: groups[g1] != groups[g2])
      && (forall g | g in groups :: groups[g].name == g)
      && (forall p | p in partToGroup :: partToGroup[p] in groups && p in groups[partToGroup[p]].parts)
      && (forall g, p | g in groups && p in groups[g].parts :: p in partToGroup && partToGroup[p] == g)
    }

    /** Changing only LUT paths and selected variants keeps the invariant. */
    twostate lemma ValidKept()
      requires old(Valid()) && MembersKept() && partToGroup == old(partToGroup)
      requires forall g | g in groups :: groups[g].name == old(groups[g].name)
      ensures Valid()
    {
    }

    constructor ()
      ensures Valid() && groups == map[] && partToGroup == map[]
    {
      groups := map[];
      partToGroup := map[];
    }

    /** Under the invariant a part is in at most one group. */
    lemma AtMostOneGroup(p: string, g1: string, g2: string)
      requires Valid()
      requires g1 in groups && g2 in groups && p in groups[g1].parts && p in groups[g2].parts
      ensures g1 == g2
    {
      assert partToGroup[p] == g1;
    }

    /** `createGroup`: an existing name changes nothing; otherwise a new empty group is added. */
    method CreateGroup(groupName: string)
      requires Valid()
      modifies this
      ensures Valid() && partToGroup == old(partToGroup)
      ensures groupName in old(groups) ==> groups == old(groups)
      ensures groupName !in old(groups) ==>
                && groupName in groups && fresh(groups[groupName])
                && groups == old(groups)[groupName := groups[groupName]]
                && groups[groupName].name == groupName && groups[groupName].lutPath == None
                && groups[groupName].selectedVariant == 0 && groups[groupName].parts == {}
    {
      if groupName !in groups {
        var group := new LUTGroup(groupName);
        groups := groups[groupName := group];
      }
    }

    /** `deleteGroup`: drops the group and the entries of exactly its members; an unknown name
        changes nothing. */
    method DeleteGroup(groupName: string)
      requires Valid()
      modifies this
      ensures Valid()
      ensures groupName !in old(groups) ==> groups == old(groups) && partToGroup == old(partToGroup)
      ensures groupName in old(groups) ==>
                && groups == old(groups) - {groupName}
                && partToGroup == old(partToGroup) - old(groups[groupName].parts)
    {
      if groupName in groups {
        var group := groups[groupName];
        partToGroup := RemoveKeys(partToGroup, group.parts);
        groups := groups - {groupName};
      }
    }

    /** `removePartFromCurrentGroup`: the part leaves its group, if it has one; every other
        membership stays. */
    method RemovePartFromCurrentGroup(partName: string)
      requires Valid()
      modifies this, groups.Values
      ensures Valid() && groups == old(groups)
      ensures partToGroup == old(partToGroup) - {partName}
      ensures SettingsKept("") && forall g | g in groups :: groups[g].parts == old(groups[g].parts) - {partName}
      ensures GetPartGroup(partName) == None
    {
      if partName in partToGroup {
        var currentGroup := partToGroup[partName];
        if currentGroup in groups {
          groups[currentGroup].RemovePart(partName);
        }
        partToGroup := partToGroup - {partName};
      }
    }

    /** `addPartToGroup`: the part leaves its current group, then joins the named group if it
        exists (and so ends up in no group if it does not). */
    method AddPartToGroup(partName: string, groupName: string)
      requires Valid()
      modifies this, groups.Values
      ensures Valid() && groups == old(groups)
      ensures partToGroup == if groupName in groups then old(partToGroup)[partName := groupName]
                             else old(partToGroup) - {partName}
      ensures SettingsKept("")
      ensures forall g | g in groups ::
                groups[g].parts == old(groups[g].parts) - {partName} + (if g == groupName then {partName} else {})
      ensures GetPartGroup(partName) == if groupName in groups then Some(groupName) else None
    {
      RemovePartFromCurrentGroup(partName);
      if groupName in groups {
        JoinGroup(partName, groupName);
      }
    }

    /** Puts a part that is in no group into an existing group. */
    method JoinGroup(partName: string, groupName: string)
      requires Valid() && groupName in groups && partName !in partToGroup
      modifies this, groups[groupName]
      ensures Valid() && groups == old(groups)
      ensures partToGroup == old(partToGroup)[partName := groupName]
      ensures SettingsKept("")
      ensures forall g | g in groups :: groups[g].parts == old(groups[g].parts) + (if g == groupName then {partName} else {})
    {
      groups[groupName].AddPart(partName);
      partToGroup := partToGroup[partName := groupName];
    }

    /** `getPartGroup`: the name of the group holding the part, or null. */
    function GetPartGroup(partName: string): (r: Option<string>)
      reads this, groups.Values
      requires Valid()
      ensures forall g :: r == Some(g) <==> g in groups && partName in groups[g].parts
    {
      if partName in partToGroup then Some(partToGroup[partName]) else None
    }

    predicate HasGroup(groupName: string)
      reads this
    {
      groupName in groups
    }

    /** `getGroup`: the group of that name, or null. */
    function GetGroup(groupName: string): (r: Option<LUTGroup>)
      reads this, groups.Values
      requires Valid()
      ensures r.Some? <==> HasGroup(groupName)
      ensures r.Some? ==> r.value == groups[groupName] && r.value.name == groupName
    {
      if groupName in groups then Some(groups[groupName]) else None
    }

    /** `getGroupNames`: every group name once, in the (unspecified) order of the key set. */
    method GetGroupNames() returns (names: seq<string>)
      ensures forall g :: g in names <==> g in groups
      ensures forall i, j | 0 <= i < j < |names| :: names[i] != names[j]
    {
      names := [];
      var remaining := groups.Keys;
      while remaining != {}
        invariant remaining <= groups.Keys
        invariant forall g :: g in names <==> g in groups && g !in remaining
        invariant forall i, j | 0 <= i < j < |names| :: names[i] != names[j]
        decreases |remaining|
      {
        var g :| g in remaining;
        names := names + [g];
        remaining := remaining - {g};
      }
    }

    /** `setGroupLUT`: records the path, then for every member loads the LUT and selects the
        group's variant, whether the load succeeded or not. The file is given decoded, once for
        all members. An unknown group changes nothing. */
    method SetGroupLUT(groupName: string, lutPath: string, lutFile: Option<Image>, lutManager: LUTManager)
      requires Valid() && lutManager.Valid()
      requires lutFile.Some? ==> lutFile.value.Valid()
      modifies groups.Values, lutManager
      ensures Valid() && lutManager.Valid()
      ensures SettingsKept(groupName) && MembersKept() && partToGroup == old(partToGroup)
      ensures groupName !in groups ==>
                && lutManager.loadedLUTs == old(lutManager.loadedLUTs)
                && lutManager.selectedColors == old(lutManager.selectedColors)
                && lutManager.colorMappings == old(lutManager.colorMappings)
      ensures groupName in groups ==>
                var members := old(groups[groupName].parts);
                var variant := old(groups[groupName].selectedVariant);
                && groups[groupName].lutPath == Some(lutPath)
                && lutManager.selectedColors == Assign(old(lutManager.selectedColors), members, variant)
                && lutManager.loadedLUTs ==
                     (if lutFile.Some? then Assign(old(lutManager.loadedLUTs), members, lutFile.value)
                      else old(lutManager.loadedLUTs))
                && lutManager.colorMappings ==
                     (if lutFile.Some? then Assign(old(lutManager.colorMappings), members, TemplateMapping(lutFile.value))
                      else old(lutManager.colorMappings))
    {
      if groupName in groups {
        var group := groups[groupName];
        group.SetLutPath(Some(lutPath));
        LoadForMembers(lutManager, group.parts, lutFile, group.selectedVariant);
        ValidKept();
      }
    }

    /** `setGroupVariant`: records the variant, then selects it for exactly the members that
        currently have a LUT. An unknown group changes nothing. */
    method SetGroupVariant(groupName: string, variant: int, lutManager: LUTManager)
      requires Valid() && lutManager.Valid()
      modifies groups.Values, lutManager
      ensures Valid() && lutManager.Valid()
      ensures lutManager.loadedLUTs == old(lutManager.loadedLUTs)
      ensures lutManager.colorMappings == old(lutManager.colorMappings)
      ensures MembersKept() && partToGroup == old(partToGroup)
      ensures forall g | g in groups ::
                && groups[g].name == old(groups[g].name) && groups[g].lutPath == old(groups[g].lutPath)
                && (g != groupName ==> groups[g].selectedVariant == old(groups[g].selectedVariant))
      ensures groupName !in groups ==> lutManager.selectedColors == old(lutManager.selectedColors)
      ensures groupName in groups ==>
                var members := old(groups[groupName].parts);
                && groups[groupName].selectedVariant == variant
                && lutManager.selectedColors ==
                     Assign(old(lutManager.selectedColors), members * old(lutManager.loadedLUTs.Keys), variant)
    {
      if groupName in groups {
        var group := groups[groupName];
        group.SetSelectedVariant(variant);
        SelectForMembersWithLUT(lutManager, group.parts, variant);
        ValidKept();
      }
    }
  }
}
