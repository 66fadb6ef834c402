/** The whole of mkversion.c's main: the three first-line reads, the header values derived
    from them and the order in which a missing input stops the program. */
module MkVersion {
  import opened Options
  import opened CText
  import opened ManifestDates
  import opened ReleaseVersion

  /** The values VERSION.h defines, in the order they are printed. */
  datatype Header = Header(
    uuid: string,
    manifestVersion: string,
    dates: seq<DateDefines>,
    release: string,
    versionNumber: string,
    resourceVersion: string)

  /** The two ways main gives up: an empty manifest.uuid or an empty VERSION file. */
  datatype Failure = MalformedUuidFile | MalformedVersionFile

  datatype Result = Ok(header: Header) | Err(failure: Failure)

  /** `n` spaces. */
  function Spaces(n: nat): (r: string)
    ensures |r| == n && forall i :: 0 <= i < n ==> r[i] == ' '
  {
    if n == 0 then [] else Spaces(n - 1) + " "
  }

  /** MANIFEST_VERSION, `[%10.10s]`: at most the first ten characters of the check-in hash,
      right-justified in a field of ten. */
  function ManifestVersion(uuid: string): (r: string)
    ensures |r| == 12 && r[0] == '[' && r[11] == ']'
    ensures |uuid| >= 10 ==> r[1..11] == uuid[..10]
    ensures |uuid| < 10 ==> r[1..11] == Spaces(10 - |uuid|) + uuid
  {
    var t := if |uuid| >= 10 then uuid[..10] else uuid;
    "[" + Spaces(10 - |t|) + t + "]"
  }

  /** The header main prints once both first lines were read (with the corrected
      MANIFEST_NUMERIC_TIME of `ManifestDates.DateOf`). */
  function HeaderOf(uuidLine: string, manifest: seq<string>, versionLine: string): Header
    requires forall k :: 0 <= k < |manifest| && IsDateLine(manifest[k]) ==> WellFormedDateLine(manifest[k])
  {
    var uuid := FirstLine(uuidLine);
    var release := FirstLine(versionLine);
    Header(
      uuid,
      ManifestVersion(uuid),
      DatesOf(manifest),
      release,
      VersionNumber(VersionOf(release)),
      ResourceVersionOf(release))
  }

  /** mkversion.c:84-181 without its I/O: the first line of manifest.uuid (None when the
      first read finds nothing), the manifest's lines, and the first line of VERSION. */
  method MakeHeader(uuidFile: Option<string>, manifest: seq<string>, versionFile: Option<string>)
    returns (r: Result)
    requires forall k :: 0 <= k < |manifest| && IsDateLine(manifest[k]) ==> WellFormedDateLine(manifest[k])
    ensures uuidFile.None? ==> r == Err(MalformedUuidFile)
    ensures uuidFile.Some? && versionFile.None? ==> r == Err(MalformedVersionFile)
    ensures uuidFile.Some? && versionFile.Some? ==>
      r == Ok(HeaderOf(uuidFile.value, manifest, versionFile.value))
  {
    if uuidFile.None? {
      return Err(MalformedUuidFile);
    }
    var uuid := TrimLine(uuidFile.value);
    var dates := ScanManifest(manifest);
    if versionFile.None? {
      return Err(MalformedVersionFile);
    }
    var release := TrimLine(versionFile.value);
    var v := ParseVersion(release);
    var resource := ResourceVersion(release);
    r := Ok(Header(uuid, ManifestVersion(uuid), dates, release, VersionNumber(v), resource));
  }
}
