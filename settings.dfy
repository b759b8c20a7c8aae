/** The local settings override file `<siteDir>/settings.local.php` and what
    one run of `writeSettingsFile` makes of it. The file is text; one run
    reads it once (after seeding a missing file with the PHP open tag) and
    appends, in list order, every debug line that the snapshot does not
    already contain case-insensitively, each followed by a newline. */
module Settings {
  import opened PhpStrings

  /** What a missing settings file is seeded with before it is read. */
  const OpenTagSeed: string := "<?php\n"

  /** The one debug line that depends on the site: it registers the site's
      local services file with the container. */
  function ContainerYamlsLine(siteDir: string): string
  {
    "$settings['container_yamls'][] = DRUPAL_ROOT . '/" + siteDir + "/services.local.yml';"
  }

  /** The fixed, ordered list of lines the file must end up containing. */
  function DebugLines(siteDir: string): seq<string>
  {
    [ "<?php",
      ContainerYamlsLine(siteDir),
      "$settings['cache']['bins']['render'] = 'cache.backend.null';",
      "$settings['cache']['bins']['page'] = 'cache.backend.null';",
      "$settings['cache']['bins']['dynamic_page_cache'] = 'cache.backend.null';",
      "$config['system.performance']['css']['preprocess'] = FALSE;",
      "$config['system.performance']['js']['preprocess'] = FALSE;",
      "$config['simplesamlphp_auth.settings']['activate'] = FALSE;",
      "$settings['config_exclude_modules'] = ['devel', 'stage_file_proxy'];"
    ]
  }

  /** The content read back after a missing file has been seeded. */
  function Snapshot(present: bool, content: string): string
  {
    if present then content else OpenTagSeed
  }

  /** The lines of `lines` that `stripos` does not find in `snapshot`, in
      list order. */
  function MissingLines(snapshot: string, lines: seq<string>): seq<string>
  {
    if lines == [] then []
    else
      var last := lines[|lines| - 1];
      MissingLines(snapshot, lines[..|lines| - 1]) + (if ContainsCI(snapshot, last) then [] else [last])
  }

  /** The text that appending each of `lines` as a line (the line and a
      newline) adds to the end of a file. */
  function AppendedText(lines: seq<string>): string
  {
    if lines == [] then []
    else AppendedText(lines[..|lines| - 1]) + lines[|lines| - 1] + "\n"
  }

  /** The settings file content after one `writeSettingsFile(siteDir)` run
      on a file that is `present` with `content` (ignored when absent). */
  function SettingsAfterWrite(present: bool, content: string, siteDir: string): string
  {
    var snapshot := Snapshot(present, content);
    snapshot + AppendedText(MissingLines(snapshot, DebugLines(siteDir)))
  }

  // ---------------------------------------------------------------- lemmas

  /** The missing lines are exactly the listed lines `stripos` does not
      find in the snapshot. */
  lemma {:induction false} MissingLinesMembers(snapshot: string, lines: seq<string>)
    ensures forall l :: l in MissingLines(snapshot, lines) <==> l in lines && !ContainsCI(snapshot, l)
  {
    if lines != [] {
      var init, last := lines[..|lines| - 1], lines[|lines| - 1];
      assert lines == init + [last];
      MissingLinesMembers(snapshot, init);
    }
  }

  lemma AppendedTextSnoc(lines: seq<string>, line: string)
    ensures AppendedText(lines + [line]) == AppendedText(lines) + line + "\n"
  {
  }

  /** The appended text starts with the first line and its newline. */
  lemma {:induction false} AppendedTextStartsWith(lines: seq<string>)
    requires lines != []
    ensures lines[0] + "\n" <= AppendedText(lines)
  {
    if |lines| > 1 {
      var init := lines[..|lines| - 1];
      AppendedTextStartsWith(init);
      assert init[0] == lines[0];
    } else {
      assert lines[..0] == [];
    }
  }

  lemma {:induction false} AppendedTextContains(lines: seq<string>, l: string)
    requires l in lines
    ensures ContainsCI(AppendedText(lines), l)
  {
    var init, last := lines[..|lines| - 1], lines[|lines| - 1];
    var head := AppendedText(init);
    assert AppendedText(lines) == head + last + "\n";
    if l == last {
      ContainsCISelf(l);
      ContainsCIExtendLeft(head, l, l);
    } else {
      assert l in init by { assert lines == init + [last]; }
      AppendedTextContains(init, l);
      ContainsCIExtendRight(head, last, l);
    }
    ContainsCIExtendRight(head + last, "\n", l);
  }

  lemma {:induction false} MissingLinesSplit(snapshot: string, a: seq<string>, b: seq<string>)
    ensures MissingLines(snapshot, a + b) == MissingLines(snapshot, a) + MissingLines(snapshot, b)
    decreases |b|
  {
    if b == [] {
      assert a + b == a;
    } else {
      var init := b[..|b| - 1];
      assert (a + b)[..|a + b| - 1] == a + init;
      MissingLinesSplit(snapshot, a, init);
    }
  }

  lemma {:induction false} MissingLinesAll(snapshot: string, lines: seq<string>)
    requires forall l :: l in lines ==> !ContainsCI(snapshot, l)
    ensures MissingLines(snapshot, lines) == lines
  {
    if lines != [] {
      var init := lines[..|lines| - 1];
      assert lines == init + [lines[|lines| - 1]];
      assert forall l :: l in init ==> l in lines;
      MissingLinesAll(snapshot, init);
    }
  }

  lemma {:induction false} MissingLinesNone(snapshot: string, lines: seq<string>)
    requires forall l :: l in lines ==> ContainsCI(snapshot, l)
    ensures MissingLines(snapshot, lines) == []
  {
    if lines != [] {
      var init := lines[..|lines| - 1];
      assert lines == init + [lines[|lines| - 1]];
      assert forall l :: l in init ==> l in lines;
      MissingLinesNone(snapshot, init);
    }
  }

  /** Pre-existing content is kept verbatim at the front: the run only
      appends. */
  lemma WritePreservesContent(present: bool, content: string, siteDir: string)
    ensures Snapshot(present, content) <= SettingsAfterWrite(present, content, siteDir)
    ensures present ==> content <= SettingsAfterWrite(present, content, siteDir)
    ensures !present ==> OpenTagSeed <= SettingsAfterWrite(present, content, siteDir)
  {
  }

  /** A line the snapshot already holds (in any letter case) is not
      appended again; the appended lines are exactly the others, in order. */
  lemma WriteSkipsPresentLines(present: bool, content: string, siteDir: string, l: string)
    requires ContainsCI(Snapshot(present, content), l)
    ensures l !in MissingLines(Snapshot(present, content), DebugLines(siteDir))
  {
    MissingLinesMembers(Snapshot(present, content), DebugLines(siteDir));
  }

  /** After one run every debug line, including the site-specific
      `container_yamls` one, is in the file case-insensitively. */
  lemma {:induction false} WriteIsComplete(present: bool, content: string, siteDir: string)
    ensures forall l :: l in DebugLines(siteDir) ==>
              ContainsCI(SettingsAfterWrite(present, content, siteDir), l)
  {
    var snapshot := Snapshot(present, content);
    var missing := MissingLines(snapshot, DebugLines(siteDir));
    MissingLinesMembers(snapshot, DebugLines(siteDir));
    forall l | l in DebugLines(siteDir)
      ensures ContainsCI(snapshot + AppendedText(missing), l)
    {
      if ContainsCI(snapshot, l) {
        ContainsCIExtendRight(snapshot, AppendedText(missing), l);
      } else {
        AppendedTextContains(missing, l);
        ContainsCIExtendLeft(snapshot, AppendedText(missing), l);
      }
    }
  }

  /** Running the command a second time leaves the file as it is. */
  lemma {:induction false} WriteIsIdempotent(present: bool, content: string, siteDir: string)
    ensures SettingsAfterWrite(true, SettingsAfterWrite(present, content, siteDir), siteDir)
            == SettingsAfterWrite(present, content, siteDir)
  {
    var once := SettingsAfterWrite(present, content, siteDir);
    WriteIsComplete(present, content, siteDir);
    MissingLinesNone(once, DebugLines(siteDir));
    assert once + AppendedText([]) == once;
  }

  lemma SeedHoldsOpenTag()
    ensures ContainsCI(OpenTagSeed, "<?php")
  {
  }

  lemma DirectivesNotInSeed(siteDir: string)
    ensures forall l :: l in DebugLines(siteDir)[1..] ==> !ContainsCI(OpenTagSeed, l)
  {
  }

  /** A missing file ends up as the open tag line followed by the eight
      directives in list order, one per line; the open tag is not
      appended a second time. */
  lemma {:induction false} WriteOnMissingFile(content: string, siteDir: string)
    ensures SettingsAfterWrite(false, content, siteDir) == OpenTagSeed + AppendedText(DebugLines(siteDir)[1..])
  {
    var lines := DebugLines(siteDir);
    SeedHoldsOpenTag();
    assert lines == [lines[0]] + lines[1..];
    MissingLinesSplit(OpenTagSeed, [lines[0]], lines[1..]);
    assert MissingLines(OpenTagSeed, [lines[0]]) == [] by {
      assert [lines[0]][..0] == [];
    }
    DirectivesNotInSeed(siteDir);
    MissingLinesAll(OpenTagSeed, lines[1..]);
    assert MissingLines(OpenTagSeed, lines) == lines[1..];
    assert Snapshot(false, content) == OpenTagSeed;
  }

  /** Lines are appended directly after the existing content: no newline
      is put in front of the first one. When the file does not end in a
      newline, the first appended line continues the file's last line. */
  lemma WriteAppendsDirectly(content: string, siteDir: string)
    requires MissingLines(content, DebugLines(siteDir)) != []
    ensures var first := MissingLines(content, DebugLines(siteDir))[0];
      content + first + "\n" <= SettingsAfterWrite(true, content, siteDir)
  {
    AppendedTextStartsWith(MissingLines(content, DebugLines(siteDir)));
  }

  /** For a file whose last line is a comment without a newline, the
      `container_yamls` directive lands inside that comment. */
  lemma WriteAfterTrailingComment(siteDir: string)
    ensures var content := "<?php\n// custom";
      content + ContainerYamlsLine(siteDir) + "\n" <= SettingsAfterWrite(true, content, siteDir)
  {
    var content := "<?php\n// custom";
    var lines := DebugLines(siteDir);
    assert ContainsCI(content, lines[0]) by {
      assert OccursAt(Lower(content), Lower(lines[0]), 0);
    }
    assert !ContainsCI(content, lines[1]);
    assert lines == lines[..2] + lines[2..];
    MissingLinesSplit(content, lines[..2], lines[2..]);
    assert lines[..2][..1] == [lines[0]] && [lines[0]][..0] == [];
    assert MissingLines(content, [lines[0]]) == [];
    assert lines[..2][1] == lines[1];
    assert MissingLines(content, lines[..2]) == [lines[1]];
    WriteAppendsDirectly(content, siteDir);
  }

  /** The `container_yamls` line embeds the site directory verbatim, so
      different sites get different lines. */
  lemma ContainerYamlsLineDeterminesSite(siteDir1: string, siteDir2: string)
    requires ContainerYamlsLine(siteDir1) == ContainerYamlsLine(siteDir2)
    ensures siteDir1 == siteDir2
  {
    var prefix := "$settings['container_yamls'][] = DRUPAL_ROOT . '/";
    var suffix := "/services.local.yml';";
    var l1, l2 := ContainerYamlsLine(siteDir1), ContainerYamlsLine(siteDir2);
    assert l1[|prefix|..|l1| - |suffix|] == siteDir1;
    assert l2[|prefix|..|l2| - |suffix|] == siteDir2;
  }
}
