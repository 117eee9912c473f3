/**
 * File-name helpers: `sanitize_filename` replaces every character outside
 * `[\w\-_.]` by `_`, one character for one; `is_tar_gz` accepts an
 * existing regular file whose name ends in `.tar.gz`.
 */
module Utils {
  import opened Text

  /** The characters `sanitize_filename` keeps: word characters, `-`, `_` and `.`. */
  predicate Allowed(c: char) {
    IsWordChar(c) || c == '-' || c == '_' || c == '.'
  }

  /** `re.sub(r"[^\w\-_.]", "_", name)` */
  function SanitizeFilename(name: string): (r: string)
    ensures |r| == |name|
    ensures AllChars(r, Allowed)
  {
    if name == [] then []
    else [if Allowed(name[0]) then name[0] else '_'] + SanitizeFilename(name[1..])
  }

  /** Allowed characters are kept where they are; every other character becomes `_`. */
  lemma {:induction false} SanitizePointwise(name: string)
    ensures forall i :: 0 <= i < |name| ==>
      SanitizeFilename(name)[i] == (if Allowed(name[i]) then name[i] else '_')
  {
    if name != [] {
      SanitizePointwise(name[1..]);
      var r := SanitizeFilename(name);
      forall i | 1 <= i < |name| ensures r[i] == (if Allowed(name[i]) then name[i] else '_') {
        assert r[i] == SanitizeFilename(name[1..])[i - 1];
        assert name[1..][i - 1] == name[i];
      }
    }
  }

  /** A name made only of allowed characters is left as it is. */
  lemma SanitizeKeepsSafeNames(name: string)
    requires AllChars(name, Allowed)
    ensures SanitizeFilename(name) == name
  {
    SanitizePointwise(name);
  }

  /** Sanitizing twice is sanitizing once. */
  lemma SanitizeIdempotent(name: string)
    ensures SanitizeFilename(SanitizeFilename(name)) == SanitizeFilename(name)
  {
    SanitizeKeepsSafeNames(SanitizeFilename(name));
  }

  /** `is_tar_gz`: the suffix test, then the filesystem's answer for the name. */
  predicate IsTarGz(filename: string, isFile: string -> bool) {
    EndsWith(filename, ".tar.gz") && isFile(filename)
  }

  /** Whatever the filesystem holds, a name without the `.tar.gz` suffix is rejected. */
  lemma NotTarGzWithoutSuffix(filename: string, isFile: string -> bool)
    requires !EndsWith(filename, ".tar.gz")
    ensures !IsTarGz(filename, isFile)
  {
  }
}
