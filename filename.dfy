/**
 * The upload filename filter `allowed_file`: a name passes when it contains a
 * '.' and the text after its last '.', lower-cased, is one of the allowed
 * image extensions.
 */
module Filename {
  import opened Outcomes

  /** The allow-list of extensions, already in lower case. */
  const AllowedExtensions: set<string> := {"png", "jpg", "jpeg"}

  /** ASCII lower-casing of one character; every other character is kept. */
  function LowerChar(c: char): (d: char)
    ensures 'A' <= c <= 'Z' ==> d as int == c as int + 32
    ensures !('A' <= c <= 'Z') ==> d == c
  {
    if 'A' <= c <= 'Z' then (c as int + 32) as char else c
  }

  /** ASCII lower-casing of a string, character by character. */
  function Lower(s: string): (r: string)
    ensures |r| == |s| && forall i :: 0 <= i < |s| ==> r[i] == LowerChar(s[i])
  {
    seq(|s|, i requires 0 <= i < |s| => LowerChar(s[i]))
  }

  /** The position of the last '.' of `s`, if there is one. */
  function LastDot(s: string): (r: Option<nat>)
    ensures r.None? <==> '.' !in s
    ensures r.Some? ==> r.value < |s| && s[r.value] == '.' && '.' !in s[r.value + 1..]
  {
    if s == [] then None
    else if s[|s| - 1] == '.' then Some(|s| - 1)
    else
      var r := LastDot(s[..|s| - 1]);
      assert s == s[..|s| - 1] + [s[|s| - 1]];
      r
  }

  /** The text after the last '.', as `rsplit(".", 1)[1]` gives it; None when there is no '.'. */
  function Extension(s: string): (r: Option<string>)
    ensures r.None? <==> '.' !in s
    ensures r.Some? ==> exists k :: 0 <= k < |s| && s[k] == '.' && '.' !in s[k + 1..] && r.value == s[k + 1..]
  {
    match LastDot(s)
    case None => None
    case Some(k) => Some(s[k + 1..])
  }

  /**
   * `allowed_file`. The shortest names it accepts, such as ".png", have four
   * characters; `AllowedFileIff` states exactly which names it accepts.
   */
  predicate AllowedFile(name: string): (ok: bool)
    ensures ok ==> 4 <= |name|
  {
    match Extension(name)
    case None => false
    case Some(ext) => Lower(ext) in AllowedExtensions
  }

  /**
   * The filter described without reference to how the last '.' is found:
   * some '.' of the name has no '.' after it, and the lower-cased text after
   * it is an allowed extension.
   */
  ghost predicate HasAllowedSuffix(name: string)
  {
    exists k :: 0 <= k < |name| && name[k] == '.' && '.' !in name[k + 1..]
      && Lower(name[k + 1..]) in AllowedExtensions
  }

  /** A '.' with no '.' after it is the last one, so it is unique. */
  lemma LastDotUnique(s: string, k: nat)
    requires k < |s| && s[k] == '.' && '.' !in s[k + 1..]
    ensures LastDot(s) == Some(k)
  {
    assert '.' in s;
    var r := LastDot(s).value;
    assert forall j :: r < j < |s| ==> s[j] == s[r + 1..][j - r - 1];
    assert forall j :: k < j < |s| ==> s[j] == s[k + 1..][j - k - 1];
  }

  /** At the last '.', the filter is exactly the allow-list test on the text after it. */
  lemma AllowedAtLastDot(name: string, k: nat)
    requires k < |name| && name[k] == '.' && '.' !in name[k + 1..]
    ensures AllowedFile(name) <==> Lower(name[k + 1..]) in AllowedExtensions
  {
    LastDotUnique(name, k);
    assert Extension(name) == Some(name[k + 1..]);
  }

  /** `allowed_file` holds exactly when the name has an allowed suffix. */
  lemma AllowedFileIff(name: string)
    ensures AllowedFile(name) <==> HasAllowedSuffix(name)
  {
    if AllowedFile(name) {
      var k := LastDot(name).value;
      AllowedAtLastDot(name, k);
      assert name[k] == '.' && '.' !in name[k + 1..] && Lower(name[k + 1..]) in AllowedExtensions;
    } else if HasAllowedSuffix(name) {
      var k :| 0 <= k < |name| && name[k] == '.' && '.' !in name[k + 1..]
        && Lower(name[k + 1..]) in AllowedExtensions;
      AllowedAtLastDot(name, k);
    }
  }

  /** A name with no '.' at all is always rejected. */
  lemma NoDotRejected(name: string)
    requires '.' !in name
    ensures !AllowedFile(name)
  {
  }

  /**
   * Only the text after the last '.' decides: whatever comes before it
   * (including further dots) does not matter.
   */
  lemma OnlyLastSuffixMatters(stem: string, ext: string)
    requires '.' !in ext
    ensures AllowedFile(stem + "." + ext) <==> Lower(ext) in AllowedExtensions
  {
    var name := stem + "." + ext;
    assert name[|stem|] == '.';
    assert name[|stem| + 1..] == ext;
    AllowedAtLastDot(name, |stem|);
  }

  /** Worked case: an upper-case extension after the last of several dots passes. */
  lemma UpperCaseAfterLastDotAccepted()
    ensures AllowedFile("a.tar.PNG")
  {
    var name := "a.tar.PNG";
    assert name[5] == '.';
    assert name[6..] == "PNG";
    assert Lower(name[6..]) == "png" by {
      assert LowerChar('P') == 'p' && LowerChar('N') == 'n' && LowerChar('G') == 'g';
    }
    AllowedAtLastDot(name, 5);
  }

  /** Worked case: a name that is only a '.' and an extension passes. */
  lemma BareExtensionAccepted()
    ensures AllowedFile(".png")
  {
    var name, ext := ".png", "png";
    assert name == "" + "." + ext;
    OnlyLastSuffixMatters("", ext);
    assert Lower(ext) == "png";
  }

  /** Worked case: a name ending in '.' has an empty extension and fails. */
  lemma EmptyExtensionRejected()
    ensures !AllowedFile("file.")
  {
    var name := "file.";
    assert name == "file" + "." + "";
    OnlyLastSuffixMatters("file", "");
  }

  /** Worked case: an extension outside the allow-list fails. */
  lemma ForeignExtensionRejected()
    ensures !AllowedFile("x.gif")
  {
    var name, ext := "x.gif", "gif";
    assert name == "x" + "." + ext;
    OnlyLastSuffixMatters("x", ext);
    assert Lower(ext)[0] == 'g';
  }
}
