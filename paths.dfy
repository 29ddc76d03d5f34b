/**
 * The names an event is known by, all built from one stem
 * `<slug of the name>_<start time suffix>`: its public path
 * `/event/<stem>` (stored in the URL column), the QR image file
 * `<stem>.png`, and the absolute address the QR code encodes.
 */
module Paths {

  import opened Slug
  import opened Clock

  const EventPrefix: string := "/event/"
  const QrExtension: string := ".png"
  /** Where QR images live on disk, relative to the working directory. */
  const QrDirectory: string := "static/qrcodes/"
  /** Where the static route serves them. */
  const QrUrlPrefix: string := "/static/qrcodes/"

  /** `f"{safe_name}_{safe_time}"`: a URL-safe identifier made of word characters only. */
  function Stem(name: string, start: DateTime): (r: string)
    requires WellFormed(start)
    ensures AllWord(r)
    ensures |r| <= |name| + 14
  {
    var r := Slugify(name) + "_" + TimeSuffix(start);
    assert TimeSuffix(start) == TimeSuffix(start)[..8] + "_" + TimeSuffix(start)[9..];
    r
  }

  /** The public submission path stored in the Events table. */
  function EventPath(name: string, start: DateTime): (r: string)
    requires WellFormed(start)
    ensures |EventPrefix| <= |r| && r[..|EventPrefix|] == EventPrefix
    ensures AllWord(r[|EventPrefix|..])
  {
    EventPrefix + Stem(name, start)
  }

  /** The QR image's file name. */
  function QrFileName(name: string, start: DateTime): (r: string)
    requires WellFormed(start)
    ensures |QrExtension| <= |r| && r[|r| - |QrExtension|..] == QrExtension
    ensures AllWord(r[..|r| - |QrExtension|])
  {
    Stem(name, start) + QrExtension
  }

  /** The public path and the QR file name carry the same stem. */
  lemma PathAndFileShareStem(name: string, start: DateTime)
    requires WellFormed(start)
    ensures |EventPrefix| <= |EventPath(name, start)| && |QrExtension| <= |QrFileName(name, start)|
    ensures EventPath(name, start)[|EventPrefix|..] == QrFileName(name, start)[..|QrFileName(name, start)| - |QrExtension|]
  {
  }

  /** Two stems coincide exactly when the slugs do and the start times are the same minute. */
  lemma {:induction false} StemCollision(n1: string, t1: DateTime, n2: string, t2: DateTime)
    requires WellFormed(t1) && WellFormed(t2)
    ensures Stem(n1, t1) == Stem(n2, t2) <==> Slugify(n1) == Slugify(n2) && t1 == t2
  {
    var s1, s2 := Stem(n1, t1), Stem(n2, t2);
    if s1 == s2 {
      var k1, k2 := |Slugify(n1)|, |Slugify(n2)|;
      assert |s1| == k1 + 14 && |s2| == k2 + 14;
      assert s1[k1 + 1..] == TimeSuffix(t1);
      assert s2[k2 + 1..] == TimeSuffix(t2);
      assert s1[..k1] == Slugify(n1);
      assert s2[..k2] == Slugify(n2);
      SuffixInjective(t1, t2);
    }
  }

  /** Hence two events have the same public path exactly when their slugs and start minutes agree. */
  lemma PathCollision(n1: string, t1: DateTime, n2: string, t2: DateTime)
    requires WellFormed(t1) && WellFormed(t2)
    ensures EventPath(n1, t1) == EventPath(n2, t2) <==> Slugify(n1) == Slugify(n2) && t1 == t2
    ensures QrFileName(n1, t1) == QrFileName(n2, t2) <==> Slugify(n1) == Slugify(n2) && t1 == t2
  {
    StemCollision(n1, t1, n2, t2);
    var p1, p2 := EventPath(n1, t1), EventPath(n2, t2);
    if p1 == p2 { assert p1[|EventPrefix|..] == p2[|EventPrefix|..]; }
    var f1, f2 := QrFileName(n1, t1), QrFileName(n2, t2);
    if f1 == f2 { assert f1[..|f1| - 4] == f2[..|f2| - 4]; }
  }

  /** `host.rstrip("/")`: the host URL without its trailing slashes. */
  function TrimSlashes(host: string): (r: string)
    ensures |r| <= |host| && r == host[..|r|]
    ensures forall i :: |r| <= i < |host| ==> host[i] == '/'
    ensures r == [] || r[|r| - 1] != '/'
  {
    if host == [] || host[|host| - 1] != '/' then host
    else TrimSlashes(host[..|host| - 1])
  }

  /** The absolute address the QR code encodes: `request.host_url.rstrip("/") + event_path`. */
  function QrTarget(host: string, name: string, start: DateTime): (r: string)
    requires WellFormed(start)
    ensures |EventPath(name, start)| <= |r|
    ensures r[|r| - |EventPath(name, start)|..] == EventPath(name, start)
  {
    TrimSlashes(host) + EventPath(name, start)
  }


  /**
   * The edit page recomputes the QR file name from the stored name and start
   * time, while the stored URL keeps the stem it was created with; the two
   * still name the same stem exactly when the slug and the start minute are
   * unchanged.
   */
  lemma QrFileFollowsPath(createdName: string, createdStart: DateTime, name: string, start: DateTime)
    requires WellFormed(createdStart) && WellFormed(start)
    ensures EventPath(createdName, createdStart)[|EventPrefix|..] + QrExtension == QrFileName(name, start)
            <==> Slugify(createdName) == Slugify(name) && createdStart == start
  {
    assert EventPath(createdName, createdStart)[|EventPrefix|..] == Stem(createdName, createdStart);
    StemCollision(createdName, createdStart, name, start);
    var f := QrFileName(name, start);
    if Stem(createdName, createdStart) + QrExtension == f {
      assert Stem(createdName, createdStart) == f[..|f| - |QrExtension|];
    }
  }

}
