/**
 * The `modera:file-repository:create` console command: turns its arguments and options into a
 * repository config and creates the repository, refusing `--key-generator` together with
 * `--preserve-extensions`.
 */
module CreateRepositoryCommand {
  import opened Wrappers
  import opened Strings
  import opened RepositoryConfig
  import opened Entities
  import opened Pipeline

  /** The command line: the `filesystem` argument, the flags, and the optional option values
      (None when not given or given without a value). */
  datatype Options = Options(
    filesystem: string,
    overwriteFiles: bool,
    keyGenerator: Option<string>,
    preserveExtensions: bool,
    imagesOnly: bool,
    maxSize: Option<string>)

  /** The config the command builds, or None when a truthy key generator meets
      `--preserve-extensions`. A key generator counts as given for the config when it is not null
      and not "" (PHP's loose `null != $keyGenerator`), and then replaces the preserving generator. */
  function CommandConfig(o: Options): (r: Option<Config>)
    ensures r.None? <==> TruthyOpt(o.keyGenerator) && o.preserveExtensions
    ensures r.Some? ==> r.value.filesystem == Some(o.filesystem) && r.value.overwriteFiles == Some(o.overwriteFiles)
    ensures r.Some? ==> r.value.interceptors.None? && r.value.thumbnailSizes.None?
    ensures r.Some? ==> r.value.imagesOnly == (if o.imagesOnly then Some(true) else None)
    ensures r.Some? ==> r.value.maxSize == (if TruthyOpt(o.maxSize) then o.maxSize else None)
  {
    if TruthyOpt(o.keyGenerator) && o.preserveExtensions then None
    else
      var generator :=
        if o.keyGenerator.Some? && o.keyGenerator.value != "" then o.keyGenerator
        else if o.preserveExtensions then Some(UNIQID_PRESERVED_KEY_GENERATOR)
        else None;
      Some(Config(Some(o.filesystem), generator, Some(o.overwriteFiles), None, None,
                  if o.imagesOnly then Some(true) else None,
                  if TruthyOpt(o.maxSize) then o.maxSize else None))
  }

  /** The storage key generator a created repository ends up with: a given one, else the
      extension-preserving one when asked for, else the default uniqid generator. */
  lemma EffectiveKeyGenerator(o: Options)
    requires CommandConfig(o).Some?
    ensures ValidatedConfig(CommandConfig(o).value).Success?
    ensures var generator := ValidatedConfig(CommandConfig(o).value).value.storageKeyGenerator;
      (TruthyOpt(o.keyGenerator) ==> generator == o.keyGenerator) &&
      ((o.keyGenerator.None? || o.keyGenerator == Some("")) && o.preserveExtensions ==> generator == Some(UNIQID_PRESERVED_KEY_GENERATOR)) &&
      ((o.keyGenerator.None? || o.keyGenerator == Some("")) && !o.preserveExtensions ==> generator == Some(UNIQID_KEY_GENERATOR))
  {
  }

  /** The key generator "0" is falsy, so it passes the exclusivity check, yet it is not null, so it
      still replaces the extension-preserving generator. */
  lemma ZeroKeyGeneratorOverridesPreserving(o: Options)
    requires o.keyGenerator == Some("0") && o.preserveExtensions
    ensures CommandConfig(o).Some? && CommandConfig(o).value.storageKeyGenerator == Some("0")
  {
  }

  /** `execute`: exit code 1 and nothing created for the refused combination; otherwise the
      repository is created from the built config and the exit code is 0. */
  method Execute(fr: FileRepository, name: string, displayLabel: Option<string>, o: Options)
    returns (exitCode: int, created: Option<Repository>)
    requires fr.Valid()
    modifies fr`repositories, fr`nextId
    ensures fr.Valid()
    ensures CommandConfig(o).None? ==> exitCode == 1 && created.None? && fr.repositories == old(fr.repositories)
    ensures CommandConfig(o).Some? ==>
      (exitCode == 0 && created.Some? &&
       fr.repositories == old(fr.repositories) + [created.value] &&
       created.value.name == Some(name) && created.value.displayLabel == displayLabel &&
       created.value.config == ValidatedConfig(CommandConfig(o).value).value)
  {
    var config := CommandConfig(o);
    if config.None? {
      return 1, None;
    }
    var r := fr.CreateRepository(name, config.value, displayLabel);
    created := Some(r.value);
    exitCode := 0;
  }
}
