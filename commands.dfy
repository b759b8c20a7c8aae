/** `drupal:enable-debugging`: the two override files of one site directory
    and the commands that update them in place. A file is its existence
    flag and its content; the settings file is text, the services file is
    its parsed top-level mapping. */
module Commands {
  import opened PhpStrings
  import opened Settings
  import opened Services

  class SiteFiles {
    /** The site directory, relative to the project (e.g. "web/sites/default"). */
    const siteDir: string
    /** `<siteDir>/settings.local.php` */
    var settingsPresent: bool
    var settings: string
    /** `<siteDir>/services.local.yml` */
    var servicesPresent: bool
    var services: Document

    constructor (siteDir: string, settingsPresent: bool, settings: string,
                 servicesPresent: bool, services: Document)
      ensures this.siteDir == siteDir
      ensures this.settingsPresent == settingsPresent && this.settings == settings
      ensures this.servicesPresent == servicesPresent && this.services == services
    {
      this.siteDir := siteDir;
      this.settingsPresent := settingsPresent;
      this.settings := settings;
      this.servicesPresent := servicesPresent;
      this.services := services;
    }

    /** `writeSettingsFile`: seed a missing file with the open tag, take one
        snapshot of the file, then append each debug line the snapshot
        lacks (case-insensitively), followed by a newline, directly after
        the existing content. */
    method WriteSettingsFile()
      modifies this`settingsPresent, this`settings
      ensures settingsPresent
      ensures settings == SettingsAfterWrite(old(settingsPresent), old(settings), siteDir)
    {
      if !settingsPresent {
        settingsPresent := true;
        settings := OpenTagSeed;
      }
      AppendMissingLines(DebugLines(siteDir));
    }

    /** The loop of `writeSettingsFile`: every line of `lines` that the
        content as it stood before the loop does not contain
        case-insensitively is appended, followed by a newline. */
    method AppendMissingLines(lines: seq<string>)
      modifies this`settings
      ensures settings == old(settings) + AppendedText(MissingLines(old(settings), lines))
    {
      var existing := settings;
      for i := 0 to |lines|
        invariant settings == existing + AppendedText(MissingLines(existing, lines[..i]))
      {
        ghost var before := MissingLines(existing, lines[..i]);
        assert lines[..i + 1][..i] == lines[..i];
        if !ContainsCI(existing, lines[i]) {
          assert MissingLines(existing, lines[..i + 1]) == before + [lines[i]];
          settings := settings + lines[i] + "\n";
          AppendedTextSnoc(before, lines[i]);
        } else {
          assert MissingLines(existing, lines[..i + 1]) == before;
        }
      }
      assert lines[..|lines|] == lines;
    }

    /** `updateServicesFile`: unite the debug fragment with what the file
        holds (the fragment's keys win) and overwrite the file with the
        result. */
    method UpdateServicesFile()
      modifies this`servicesPresent, this`services
      ensures servicesPresent
      ensures services == ServicesAfterUpdate(old(servicesPresent), old(services))
    {
      var existing: Document := if servicesPresent then services else map[];
      services := Union(DebugFragment(), existing);
      servicesPresent := true;
    }

    /** `enableDrupalDebugging`: the settings file, then the services file. */
    method EnableDrupalDebugging()
      modifies this`settingsPresent, this`settings, this`servicesPresent, this`services
      ensures settingsPresent && servicesPresent
      ensures settings == SettingsAfterWrite(old(settingsPresent), old(settings), siteDir)
      ensures services == ServicesAfterUpdate(old(servicesPresent), old(services))
    {
      WriteSettingsFile();
      ghost var written := settings;
      UpdateServicesFile();
      assert settings == written;
    }
  }
}
