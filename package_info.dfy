/**
 * src/MyPackage/PackageInfo.cs: the package version reported at run time, read from the
 * assembly's informational version with any `+build` metadata cut off.
 *
 * Reflection is replaced by its result: whether the assembly carries an
 * `AssemblyInformationalVersionAttribute`, and the (possibly null) string it holds.
 */
module PackageInfo {
  import opened Wrappers
  import opened Text
  import ReleaseVersion

  const Fallback: string := "0.0.0"

  /** `AssemblyInformationalVersionAttribute`, whose `InformationalVersion` may be null. */
  datatype Attribute = Attribute(informationalVersion: Option<string>)

  /**
   * `PackageInfo.Version`: `"0.0.0"` when the attribute or its value is missing, otherwise
   * the text before the first `+` (all of it when there is none, and possibly empty).
   */
  function Version(attribute: Option<Attribute>): (r: string)
    ensures attribute.None? || attribute.value.informationalVersion.None? ==> r == Fallback
    ensures attribute.Some? && attribute.value.informationalVersion.Some? ==>
              var iv := attribute.value.informationalVersion.value;
              && '+' !in r
              && |r| <= |iv| && iv[..|r|] == r
              && (|r| == |iv| || iv[|r|] == '+')
  {
    match attribute
    case None => Fallback
    case Some(a) =>
      match a.informationalVersion
      case None => Fallback
      case Some(iv) =>
        SplitFirstPiece(iv, '+');
        Split(iv, '+')[0]
  }

  function Reported(iv: string): string {
    Version(Some(Attribute(Some(iv))))
  }

  /**
   * The text before the first `+` is determined: a prefix free of `+` that the string
   * continues with `+` or ends after is the same string whatever it is called.
   */
  lemma CutIsUnique(iv: string, r: string, c: string)
    requires '+' !in r && |r| <= |iv| && iv[..|r|] == r && (|r| == |iv| || iv[|r|] == '+')
    requires '+' !in c && |c| <= |iv| && iv[..|c|] == c && (|c| == |iv| || iv[|c|] == '+')
    ensures r == c
  {
    assert forall k :: 0 <= k < |r| ==> iv[k] == r[k] && r[k] != '+';
    assert forall k :: 0 <= k < |c| ==> iv[k] == c[k] && c[k] != '+';
    assert |r| == |c|;
  }

  /** A version without build metadata is reported unchanged. */
  lemma WithoutMetadataUnchanged(iv: string)
    requires '+' !in iv
    ensures Reported(iv) == iv
  {
    assert iv[..|iv|] == iv;
    CutIsUnique(iv, Reported(iv), iv);
  }

  /** The reported version is cut exactly at the first `+`. */
  lemma CutAtFirstPlus(core: string, metadata: string)
    requires '+' !in core
    ensures Reported(core + "+" + metadata) == core
  {
    var iv := core + "+" + metadata;
    assert iv[..|core|] == core;
    assert iv[|core|] == '+';
    CutIsUnique(iv, Reported(iv), core);
  }

  /** Reading the version of an assembly stamped with the reported version changes nothing. */
  lemma ReportedIdempotent(iv: string)
    ensures Reported(Reported(iv)) == Reported(iv)
  {
    WithoutMetadataUnchanged(Reported(iv));
  }

  /** An empty informational version is reported as empty, not as the fallback. */
  lemma EmptyIsNotFallback()
    ensures Reported("") == "" && Reported("") != Fallback
  {
  }

  /**
   * A package built from the version a release writes into the project file, with or
   * without build metadata appended by the build, reports exactly that version.
   */
  lemma ReleasedVersionIsReported(v: ReleaseVersion.SemVer, metadata: string)
    ensures Reported(ReleaseVersion.Format(v)) == ReleaseVersion.Format(v)
    ensures Reported(ReleaseVersion.Format(v) + "+" + metadata) == ReleaseVersion.Format(v)
  {
    var s := ReleaseVersion.Format(v);
    FormatHasNoPlus(v);
    WithoutMetadataUnchanged(s);
    CutAtFirstPlus(s, metadata);
  }

  lemma FormatHasNoPlus(v: ReleaseVersion.SemVer)
    ensures '+' !in ReleaseVersion.Format(v)
  {
    var a := ReleaseVersion.Decimal(v.major);
    var b := ReleaseVersion.Decimal(v.minor);
    var c := ReleaseVersion.Decimal(v.patch);
    assert ReleaseVersion.Format(v) == a + "." + b + "." + c;
    forall k | 0 <= k < |a + "." + b + "." + c| ensures (a + "." + b + "." + c)[k] != '+' {
      var s := a + "." + b + "." + c;
      if k < |a| {
        assert s[k] == a[k];
      } else if k == |a| {
      } else if k < |a| + 1 + |b| {
        assert s[k] == b[k - |a| - 1];
      } else if k == |a| + 1 + |b| {
      } else {
        assert s[k] == c[k - |a| - 2 - |b|];
      }
    }
  }

  /** `1.2.3+abc` is reported as `1.2.3`, and `1.2.3` as itself. */
  lemma MetadataExample()
    ensures Reported("1.2.3+abc") == "1.2.3"
    ensures Reported("1.2.3") == "1.2.3"
  {
    var core := "1.2.3";
    assert '+' !in core by {
      assert forall k :: 0 <= k < |core| ==> core[k] != '+';
    }
    assert core + "+" + "abc" == "1.2.3+abc";
    CutAtFirstPlus(core, "abc");
    WithoutMetadataUnchanged(core);
  }
}
