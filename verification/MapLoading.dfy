/** Loading the maps: the work grouped by file, and any number of workers that share it. */
module MapLoading {
  import opened Basics

  // ---- the work ----

  /** A section of the map list: the number after "Map", if it has one, and its file, "N/A" when it names none. */
  datatype Section = Section(id: Option<nat>, file: string)

  /** The map ids listed for a file, in order. */
  function IdsOf(sections: seq<Section>, path: string): seq<uint16> {
    if sections == [] then []
    else
      var s := sections[|sections| - 1];
      IdsOf(sections[..|sections| - 1], path)
      + if s.id.Some? && s.file == path && path != "N/A" then [Wrap16(s.id.value)] else []
  }

  /** The ids of a list are those of its parts, in order; one section gives its number, cut to sixteen bits. */
  lemma {:induction false} IdsInOrder(a: seq<Section>, b: seq<Section>, path: string)
    ensures IdsOf(a + b, path) == IdsOf(a, path) + IdsOf(b, path)
    ensures |b| == 1 && b[0].id.Some? && b[0].file == path && path != "N/A" ==> IdsOf(b, path) == [b[0].id.value % 65536]
    ensures |b| == 1 && (b[0].id.None? || b[0].file != path || path == "N/A") ==> IdsOf(b, path) == []
  {
    if b == [] {
      assert a + b == a;
    } else {
      IdsInOrder(a, b[..|b| - 1], path);
      assert (a + b)[..|a + b| - 1] == a + b[..|b| - 1];
    }
  }

  /** The work: every file with the ids listed for it, and no other file. */
  ghost predicate IsGrouping(maps: map<string, seq<uint16>>, sections: seq<Section>) {
    forall path :: (path in maps <==> IdsOf(sections, path) != []) && (path in maps ==> maps[path] == IdsOf(sections, path))
  }

  lemma NextSection(sections: seq<Section>, i: nat, path: string)
    requires i < |sections|
    ensures IdsOf(sections[..i + 1], path)
            == IdsOf(sections[..i], path)
               + if sections[i].id.Some? && sections[i].file == path && path != "N/A" then [Wrap16(sections[i].id.value)] else []
  {
    assert sections[..i + 1][..i] == sections[..i];
  }

  lemma OneMoreSection(sections: seq<Section>, i: nat, maps: map<string, seq<uint16>>)
    requires i < |sections| && IsGrouping(maps, sections[..i])
    ensures var s := sections[i];
            var after := if s.id.Some? && s.file != "N/A"
                         then maps[s.file := (if s.file in maps then maps[s.file] else []) + [Wrap16(s.id.value)]]
                         else maps;
            IsGrouping(after, sections[..i + 1])
  {
    var s := sections[i];
    var after := if s.id.Some? && s.file != "N/A"
                 then maps[s.file := (if s.file in maps then maps[s.file] else []) + [Wrap16(s.id.value)]]
                 else maps;
    forall path
      ensures (path in after <==> IdsOf(sections[..i + 1], path) != [])
      ensures path in after ==> after[path] == IdsOf(sections[..i + 1], path)
    {
      NextSection(sections, i, path);
    }
  }

  /** A section's id is already taken. */
  predicate Duplicate<D>(mMaps: map<uint16, D>, s: Section) {
    s.id.Some? && Wrap16(s.id.value) in mMaps
  }

  lemma DuplicateIs<D>(mMaps: map<uint16, D>, s: Section)
    ensures Duplicate(mMaps, s) <==> s.id.Some? && s.id.value % 65536 in mMaps
  {
  }

  /**
    * The first loop of MapManager::loadData. The only duplicates it can find are with maps loaded before; as there
    * are none when it starts, it finds none.
    */
  method GroupWork<D>(mMaps: map<uint16, D>, sections: seq<Section>) returns (err: bool, maps: map<string, seq<uint16>>)
    ensures err <==> exists i :: 0 <= i < |sections| && Duplicate(mMaps, sections[i])
    ensures err <==> exists i :: 0 <= i < |sections| && sections[i].id.Some? && sections[i].id.value % 65536 in mMaps
    ensures !err ==> IsGrouping(maps, sections)
    ensures mMaps == map[] ==> !err
  {
    hide Wrap16;
    err, maps := false, map[];
    var i := 0;
    while !err && i < |sections|
      invariant i <= |sections|
      invariant !err ==> IsGrouping(maps, sections[..i]) && forall j :: 0 <= j < i ==> !Duplicate(mMaps, sections[j])
      invariant err ==> exists j :: 0 <= j < |sections| && Duplicate(mMaps, sections[j])
      decreases |sections| - i, !err
    {
      var section := sections[i];
      OneMoreSection(sections, i, maps);
      if section.id.Some? {
        var mapId := Wrap16(section.id.value);
        if mapId !in mMaps {
          if section.file != "N/A" {
            if section.file !in maps {
              maps := maps[section.file := [mapId]];
            } else {
              maps := maps[section.file := maps[section.file] + [mapId]];
            }
          }
        } else {
          assert Duplicate(mMaps, sections[i]);
          err := true;
        }
      }
      i := i + 1;
    }
    assert !err ==> sections[..i] == sections;
    forall j | 0 <= j < |sections|
      ensures Duplicate(mMaps, sections[j]) <==> sections[j].id.Some? && sections[j].id.value % 65536 in mMaps
    {
      DuplicateIs(mMaps, sections[j]);
    }
  }
}
