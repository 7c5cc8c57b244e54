/** The two exception value builders of the bundle. */
module Exceptions {
  import opened Wrappers
  import opened Strings
  import opened RepositoryConfig

  const INVALID_CONFIG_PREFIX := "This configuration property must be provided: "
  const VALIDATION_FAILED_PREFIX := "File validation failed: "

  /** Raised when a repository config lacks a required key. */
  datatype InvalidRepositoryConfig = InvalidRepositoryConfig(
    message: string,
    missingConfigurationKey: string,
    config: Config)

  /** `InvalidRepositoryConfig::create`: the message names the key; key and config are kept as given. */
  function CreateInvalidRepositoryConfig(key: string, config: Config): (e: InvalidRepositoryConfig)
    ensures e.message == INVALID_CONFIG_PREFIX + key
    ensures e.missingConfigurationKey == key
    ensures e.config == config
  {
    InvalidRepositoryConfig(INVALID_CONFIG_PREFIX + key, key, config)
  }

  /** The missing key can be read back from the message alone. */
  lemma InvalidConfigMessageNamesKey(key: string, config: Config)
    ensures var e := CreateInvalidRepositoryConfig(key, config);
      e.message[|INVALID_CONFIG_PREFIX|..] == e.missingConfigurationKey
  {
  }

  /** Two exceptions built for different keys have different messages. */
  lemma InvalidConfigMessageInjective(k1: string, k2: string, c1: Config, c2: Config)
    requires CreateInvalidRepositoryConfig(k1, c1).message == CreateInvalidRepositoryConfig(k2, c2).message
    ensures k1 == k2
  {
    var m := INVALID_CONFIG_PREFIX + k1;
    assert m[|INVALID_CONFIG_PREFIX|..] == k1;
    assert (INVALID_CONFIG_PREFIX + k2)[|INVALID_CONFIG_PREFIX|..] == k2;
  }

  /** One element of the `$errors` argument: a constraint violation or any value cast to string. */
  datatype ErrorItem = Violation(violationMessage: string) | Stringable(text: string)

  /** The string an error contributes to `errors`. */
  function ErrorText(e: ErrorItem): string
  {
    match e
    case Violation(m) => m
    case Stringable(t) => t
  }

  /** One string per input error, in input order. */
  function ParsedErrors(items: seq<ErrorItem>): (r: seq<string>)
    ensures |r| == |items|
    ensures forall i :: 0 <= i < |items| ==> r[i] == ErrorText(items[i])
  {
    seq(|items|, i requires 0 <= i < |items| => ErrorText(items[i]))
  }

  /** Raised when a file fails validation before it is put; `F` is the file, `R` the repository. */
  datatype FileValidationException<F, R> = FileValidationException(
    message: string,
    validatedFile: F,
    errors: seq<string>,
    repository: Option<R>)

  /** `FileValidationException::create`: parses every error, in order, into the `errors` list and the message. */
  method CreateFileValidationException<F, R>(file: F, items: seq<ErrorItem>, repository: Option<R>)
    returns (e: FileValidationException<F, R>)
    ensures e.errors == ParsedErrors(items)
    ensures e.message == VALIDATION_FAILED_PREFIX + Implode(", ", ParsedErrors(items))
    ensures e.validatedFile == file && e.repository == repository
  {
    var parsed: seq<string> := [];
    var i := 0;
    while i < |items|
      invariant 0 <= i <= |items|
      invariant parsed == ParsedErrors(items[..i])
    {
      match items[i] {
        case Violation(m) => parsed := parsed + [m];
        case Stringable(t) => parsed := parsed + [t];
      }
      assert items[..i + 1] == items[..i] + [items[i]];
      i := i + 1;
    }
    assert items[..i] == items;
    e := FileValidationException(VALIDATION_FAILED_PREFIX + Implode(", ", parsed), file, parsed, repository);
  }

  /** The repository argument defaults to null. */
  method CreateFileValidationExceptionDefault<F, R>(file: F, items: seq<ErrorItem>)
    returns (e: FileValidationException<F, R>)
    ensures e.repository.None? && e.validatedFile == file && e.errors == ParsedErrors(items)
    ensures e.message == VALIDATION_FAILED_PREFIX + Implode(", ", ParsedErrors(items))
  {
    e := CreateFileValidationException(file, items, None);
  }

  /** With a single error the message is the prefix followed by exactly that error's text. */
  lemma SingleErrorMessage(item: ErrorItem)
    ensures Implode(", ", ParsedErrors([item])) == ErrorText(item)
  {
  }
}
