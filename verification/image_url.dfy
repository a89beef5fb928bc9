/**
  `constructImageUrl(req, imagePath, type = 'profile')` of the server's
  helpers. The request's protocol and `host` header are plain strings here.
  A falsy path gives the default image for the type; any other path keeps
  only its POSIX basename (`path.basename`), turns every backslash into '/',
  and is served from `/uploads/`.
*/
module ImageUrl {
  import opened Common

  const DefaultProfileImage: string := "/uploads/default-profile.png"
  const DefaultRestaurantImage: string := "/uploads/default-restaurant.jpg"
  const UploadsDir: string := "/uploads/"

  /** `${req.protocol}://${req.get('host')}` */
  function Origin(protocol: string, host: string): string {
    protocol + "://" + host
  }

  /** `s` with every trailing '/' removed. */
  function TrimTrailingSlashes(s: string): (r: string)
    ensures r <= s
    ensures r == [] || r[|r| - 1] != '/'
    ensures forall i :: |r| <= i < |s| ==> s[i] == '/'
    decreases |s|
  {
    if s != [] && s[|s| - 1] == '/' then TrimTrailingSlashes(s[..|s| - 1]) else s
  }

  /** The text after the last '/' of `s` (all of `s` when it has none). */
  function AfterLastSlash(s: string): (r: string)
    ensures |r| <= |s| && r == s[|s| - |r|..]
    ensures '/' !in r
    ensures |r| < |s| ==> s[|s| - |r| - 1] == '/'
    decreases |s|
  {
    if s == [] || s[|s| - 1] == '/' then []
    else AfterLastSlash(s[..|s| - 1]) + [s[|s| - 1]]
  }

  /**
    Node's POSIX `path.basename`: trailing slashes are ignored, then the last
    '/'-separated segment is kept. A path made only of slashes has basename "".
  */
  function Basename(p: string): (r: string)
    ensures '/' !in r
    ensures |r| <= |p|
  {
    AfterLastSlash(TrimTrailingSlashes(p))
  }

  /** `filename.replace(/\\/g, '/')` */
  function ReplaceBackslashes(s: string): (r: string)
    ensures |r| == |s|
    ensures forall i :: 0 <= i < |s| ==> r[i] == if s[i] == '\\' then '/' else s[i]
  {
    seq(|s|, i requires 0 <= i < |s| => if s[i] == '\\' then '/' else s[i])
  }

  /**
    `constructImageUrl`. `imagePath` is `None` for `null` or `undefined`;
    `imageType` is `None` when the argument is omitted.
  */
  function ConstructImageUrl(protocol: string, host: string, imagePath: Option<string>, imageType: Option<string>): (url: string)
    ensures Origin(protocol, host) <= url
  {
    var kind := imageType.GetOr("profile");
    if imagePath.None? || imagePath.value == "" then
      Origin(protocol, host) + (if kind == "restaurant" then DefaultRestaurantImage else DefaultProfileImage)
    else
      Origin(protocol, host) + UploadsDir + ReplaceBackslashes(Basename(imagePath.value))
  }

  /**
    A missing or empty path gives the restaurant default for type
    "restaurant" and the profile default for any other type, including an
    omitted one.
  */
  lemma DefaultImages(protocol: string, host: string, imagePath: Option<string>, imageType: Option<string>)
    requires imagePath.None? || imagePath.value == ""
    ensures ConstructImageUrl(protocol, host, imagePath, imageType) ==
      Origin(protocol, host) +
        (if imageType == Some("restaurant") then DefaultRestaurantImage else DefaultProfileImage)
    ensures ConstructImageUrl(protocol, host, imagePath, None) == Origin(protocol, host) + DefaultProfileImage
  {
  }

  /** A non-empty path is served from `/uploads/` under its basename, backslashes turned into '/'. */
  lemma UploadedImage(protocol: string, host: string, p: string, imageType: Option<string>)
    requires p != ""
    ensures var url := ConstructImageUrl(protocol, host, Some(p), imageType);
      && url == Origin(protocol, host) + UploadsDir + ReplaceBackslashes(Basename(p))
      && |url| == |Origin(protocol, host)| + |UploadsDir| + |Basename(p)|
  {
  }

  /** Text without '/' is its own last segment. */
  lemma {:induction false} AfterLastSlashNoSlash(s: string)
    requires '/' !in s
    ensures AfterLastSlash(s) == s
    decreases |s|
  {
    if s != [] {
      assert s[|s| - 1] in s;
      assert forall c :: c in s[..|s| - 1] ==> c in s;
      AfterLastSlashNoSlash(s[..|s| - 1]);
      assert s == s[..|s| - 1] + [s[|s| - 1]];
    }
  }

  /** Taking the basename twice changes nothing. */
  lemma BasenameIdempotent(p: string)
    ensures Basename(Basename(p)) == Basename(p)
  {
    var b := Basename(p);
    assert b == [] || b[|b| - 1] in b;
    assert TrimTrailingSlashes(b) == b;
    AfterLastSlashNoSlash(b);
  }

  /**
    The URL of a path depends only on its basename, except for a non-empty
    path made only of slashes: its basename "" is falsy and would select the
    default image, while the path itself is served as `/uploads/`.
  */
  lemma UrlDependsOnBasename(protocol: string, host: string, p: string, imageType: Option<string>)
    requires p != ""
    ensures ConstructImageUrl(protocol, host, Some(p), imageType) ==
            ConstructImageUrl(protocol, host, Some(Basename(p)), imageType)
        <==> Basename(p) != ""
  {
    if Basename(p) != "" {
      BasenameIdempotent(p);
    } else {
      SlashesOnlyUrl(protocol, host, p, imageType);
    }
  }

  /** A non-empty path of slashes only is served as the bare uploads directory, unlike its basename. */
  lemma SlashesOnlyUrl(protocol: string, host: string, p: string, imageType: Option<string>)
    requires p != "" && Basename(p) == ""
    ensures ConstructImageUrl(protocol, host, Some(p), imageType) == Origin(protocol, host) + UploadsDir
    ensures |ConstructImageUrl(protocol, host, Some(""), imageType)| > |Origin(protocol, host) + UploadsDir|
  {
    assert ReplaceBackslashes("") == "";
    assert |DefaultRestaurantImage| > |UploadsDir| && |DefaultProfileImage| > |UploadsDir|;
  }

  /** Replacing backslashes leaves none. */
  lemma NoBackslashAfterReplace(s: string)
    ensures '\\' !in ReplaceBackslashes(s)
  {
  }

  /** A character in neither part is not in the concatenation. */
  lemma NotInConcat(c: char, a: string, b: string)
    requires c !in a && c !in b
    ensures c !in a + b
  {
    assert forall x :: x in a + b ==> x in a || x in b;
  }

  /** When the origin has no backslash, neither has the URL. */
  lemma NoBackslashInUrl(protocol: string, host: string, imagePath: Option<string>, imageType: Option<string>)
    requires '\\' !in Origin(protocol, host)
    ensures '\\' !in ConstructImageUrl(protocol, host, imagePath, imageType)
  {
    var origin := Origin(protocol, host);
    if imagePath.None? || imagePath.value == "" {
      var image := if imageType.GetOr("profile") == "restaurant" then DefaultRestaurantImage else DefaultProfileImage;
      assert '\\' !in image;
      NotInConcat('\\', origin, image);
    } else {
      var r := ReplaceBackslashes(Basename(imagePath.value));
      NoBackslashAfterReplace(Basename(imagePath.value));
      assert '\\' !in UploadsDir;
      NotInConcat('\\', origin, UploadsDir);
      NotInConcat('\\', origin + UploadsDir, r);
    }
  }

  /**
    Basename splits on '/' only: a Windows-style parent reference survives it
    and comes out as a '/'-separated `..` segment under `/uploads/`.
  */
  lemma BackslashParentSurvives(protocol: string, host: string)
    ensures ConstructImageUrl(protocol, host, Some("..\\x.png"), None) ==
            Origin(protocol, host) + "/uploads/../x.png"
  {
    var p := "..\\x.png";
    assert '/' !in p;
    assert TrimTrailingSlashes(p) == p;
    AfterLastSlashNoSlash(p);
    assert ReplaceBackslashes(p) == "../x.png";
  }
}
