/**
 Desktop entry records and how one loaded `.desktop` file becomes index
 insertions: every section named exactly `Desktop Entry` gives one record
 holding the section's `Name` and `Exec` values and the file's path, inserted
 under the lower-cased name; every other section gives nothing.
 */
module Entries {
  import opened Text
  import opened PrefixMaps

  /** The one section name that produces records (compared exactly). */
  const DesktopEntrySection := "Desktop Entry"

  /** One application launcher found on disk. */
  datatype DesktopEntry = DesktopEntry(name: string, exec: string, path: string)

  /** One section of a parsed INI file: its name and its keys with values. */
  datatype Section = Section(name: string, keys: map<string, string>)

  /** The INI library's `section.Key(key).String()`: the key's value, or the
      empty string when the section has no such key. */
  function KeyValue(section: Section, key: string): (v: string)
    ensures key in section.keys ==> v == section.keys[key]
    ensures v != "" ==> key in section.keys
  {
    if key in section.keys then section.keys[key] else ""
  }

  /** The record built from a `Desktop Entry` section of the file at `path`:
      the walked path, and the section's `Name` and `Exec` values, each empty
      when the section lacks it. */
  function MakeEntry(path: string, section: Section): (e: DesktopEntry)
    ensures e.path == path
    ensures "Name" in section.keys ==> e.name == section.keys["Name"]
    ensures "Name" !in section.keys ==> e.name == ""
    ensures "Exec" in section.keys ==> e.exec == section.keys["Exec"]
    ensures "Exec" !in section.keys ==> e.exec == ""
  {
    DesktopEntry(KeyValue(section, "Name"), KeyValue(section, "Exec"), path)
  }

  /** The insertion made for a section: the record, under its lower-cased
      name, which has the name's length and no upper-case letter. */
  function InsertOf(path: string, section: Section): (b: Binding<DesktopEntry>)
    ensures b.value == MakeEntry(path, section)
    ensures b.key == ToLower(b.value.name)
    ensures |b.key| == |b.value.name| && forall i :: 0 <= i < |b.key| ==> !('A' <= b.key[i] <= 'Z')
  {
    var entry := MakeEntry(path, section);
    Binding(ToLower(entry.name), entry)
  }

  /** The insertions made for the sections of one file, in section order:
      at most one per section, each carrying the file's path under its
      lower-cased name. */
  function FileInserts(path: string, sections: seq<Section>): (r: seq<Binding<DesktopEntry>>)
    ensures |r| <= |sections|
    ensures forall k :: 0 <= k < |r| ==> r[k].value.path == path && r[k].key == ToLower(r[k].value.name)
  {
    if sections == [] then []
    else (if sections[0].name == DesktopEntrySection then [InsertOf(path, sections[0])] else [])
         + FileInserts(path, sections[1..])
  }

  /** The names of the sections, in order. */
  function SectionNames(sections: seq<Section>): (names: seq<string>)
    ensures |names| == |sections|
    ensures forall i :: 0 <= i < |sections| ==> names[i] == sections[i].name
  {
    if sections == [] then [] else [sections[0].name] + SectionNames(sections[1..])
  }

  /** The insertions of a file split into those of its first sections and
      those of the rest: sections are handled one after the other. */
  lemma {:induction false} FileInsertsAppend(path: string, a: seq<Section>, b: seq<Section>)
    ensures FileInserts(path, a + b) == FileInserts(path, a) + FileInserts(path, b)
  {
    if a == [] {
      assert a + b == b;
    } else {
      var ab := a + b;
      assert ab[0] == a[0];
      assert ab[1..] == a[1..] + b;
      FileInsertsAppend(path, a[1..], b);
    }
  }

  /** Exactly one insertion per section named `Desktop Entry`. */
  lemma {:induction false} FileInsertsCount(path: string, sections: seq<Section>)
    ensures |FileInserts(path, sections)| == multiset(SectionNames(sections))[DesktopEntrySection]
  {
    if sections != [] {
      FileInsertsCount(path, sections[1..]);
      assert SectionNames(sections) == [sections[0].name] + SectionNames(sections[1..]);
    }
  }

  /** The record `e` is the one built from some `Desktop Entry` section of
      `sections` for the file at `path`. */
  ghost predicate FromDesktopSection(path: string, sections: seq<Section>, e: DesktopEntry)
  {
    exists i :: 0 <= i < |sections| && sections[i].name == DesktopEntrySection &&
                e == DesktopEntry(KeyValue(sections[i], "Name"), KeyValue(sections[i], "Exec"), path)
  }

  /** Every insertion of a file comes from one of its `Desktop Entry` sections. */
  lemma {:induction false} FileInsertsSound(path: string, sections: seq<Section>)
    ensures forall b :: b in FileInserts(path, sections) ==> FromDesktopSection(path, sections, b.value)
  {
    if sections != [] {
      var rest := sections[1..];
      FileInsertsSound(path, rest);
      forall b | b in FileInserts(path, sections)
        ensures FromDesktopSection(path, sections, b.value)
      {
        if sections[0].name == DesktopEntrySection && b == InsertOf(path, sections[0]) {
          assert b.value == DesktopEntry(KeyValue(sections[0], "Name"), KeyValue(sections[0], "Exec"), path);
        } else {
          assert b in FileInserts(path, rest);
          var i :| 0 <= i < |rest| && rest[i].name == DesktopEntrySection &&
                   b.value == DesktopEntry(KeyValue(rest[i], "Name"), KeyValue(rest[i], "Exec"), path);
          assert sections[i + 1] == rest[i];
        }
      }
    }
  }

  /** Every `Desktop Entry` section of a file is inserted. */
  lemma {:induction false} FileInsertsComplete(path: string, sections: seq<Section>)
    ensures forall i :: 0 <= i < |sections| && sections[i].name == DesktopEntrySection ==>
      InsertOf(path, sections[i]) in FileInserts(path, sections)
  {
    if sections != [] {
      var rest := sections[1..];
      FileInsertsComplete(path, rest);
      forall i | 0 <= i < |sections| && sections[i].name == DesktopEntrySection
        ensures InsertOf(path, sections[i]) in FileInserts(path, sections)
      {
        if i > 0 {
          assert rest[i - 1] == sections[i];
        }
      }
    }
  }

  /** Every insertion comes from a `Desktop Entry` section of the file, its
      record carries the file's path and that section's `Name` and `Exec`
      values, and its key is the lower-cased name; every such section is
      inserted. */
  lemma {:induction false} FileInsertsMembers(path: string, sections: seq<Section>)
    ensures forall b :: b in FileInserts(path, sections) ==>
      b.value.path == path && b.key == ToLower(b.value.name) &&
      exists i :: 0 <= i < |sections| && sections[i].name == DesktopEntrySection &&
                  b.value == DesktopEntry(KeyValue(sections[i], "Name"), KeyValue(sections[i], "Exec"), path)
    ensures forall i :: 0 <= i < |sections| && sections[i].name == DesktopEntrySection ==>
      InsertOf(path, sections[i]) in FileInserts(path, sections)
  {
    FileInsertsSound(path, sections);
    FileInsertsComplete(path, sections);
  }

  /** A `Desktop Entry` section without a `Name` key still gives a record:
      with an empty name, inserted under the empty key. */
  lemma MissingNameGivesEmptyName(path: string, section: Section)
    requires section.name == DesktopEntrySection && "Name" !in section.keys
    ensures FileInserts(path, [section]) ==
      [Binding("", DesktopEntry("", KeyValue(section, "Exec"), path))]
  {
    assert ToLower("") == "";
    assert [section][1..] == [];
  }

  /** One more section: a `Desktop Entry` section adds its insertion, any
      other adds nothing. */
  lemma FileInsertsStep(path: string, sections: seq<Section>, i: nat)
    requires i < |sections|
    ensures FileInserts(path, sections[..i + 1]) == FileInserts(path, sections[..i]) +
      (if sections[i].name == DesktopEntrySection then [InsertOf(path, sections[i])] else [])
  {
    FileInsertsAppend(path, sections[..i], [sections[i]]);
    assert sections[..i + 1] == sections[..i] + [sections[i]];
    assert [sections[i]][1..] == [];
  }

  /** The loop over a loaded file's sections: inserts one record per
      `Desktop Entry` section and skips the others. */
  method InsertSections(index: PrefixMap<DesktopEntry>, path: string, sections: seq<Section>)
    modifies index
    ensures index.bindings == old(index.bindings) + FileInserts(path, sections)
  {
    for i := 0 to |sections|
      invariant index.bindings == old(index.bindings) + FileInserts(path, sections[..i])
    {
      FileInsertsStep(path, sections, i);
      var section := sections[i];
      if section.name != DesktopEntrySection {
        continue;
      }
      var entry := DesktopEntry(KeyValue(section, "Name"), KeyValue(section, "Exec"), path);
      index.Insert(ToLower(entry.name), entry);
    }
    assert sections[..|sections|] == sections;
  }
}
