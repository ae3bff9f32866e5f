/**
  URLs built from lists of path segments (`generateUrl`, components/app-siderbar.tsx).
  `Join` and `Split` are JavaScript's `Array.prototype.join` and
  `String.prototype.split` with a one-character separator.
*/
module Url {
  import opened Wrappers
  import UriComponent

  /** `parts.join([sep])`: no separator before the first part or after the last. */
  function Join(parts: seq<string>, sep: char): string {
    if |parts| == 0 then []
    else if |parts| == 1 then parts[0]
    else parts[0] + [sep] + Join(parts[1..], sep)
  }

  /** `s.split([sep])`: always at least one piece, the empty string giving `[""]`. */
  function Split(s: string, sep: char): (parts: seq<string>)
    ensures |parts| >= 1
    decreases |s|
  {
    if s == [] then [[]]
    else if s[0] == sep then [[]] + Split(s[1..], sep)
    else
      var r := Split(s[1..], sep);
      [[s[0]] + r[0]] + r[1..]
  }

  /** `segments.map(encodeURIComponent)`. */
  function EncodeSegments(segments: seq<string>): (parts: seq<string>)
    ensures |parts| == |segments|
    ensures forall i :: 0 <= i < |segments| ==> parts[i] == UriComponent.Encode(segments[i])
  {
    if segments == [] then [] else [UriComponent.Encode(segments[0])] + EncodeSegments(segments[1..])
  }

  /** `generateUrl`: a leading `/`, then the encoded segments separated by `/`. */
  function GenerateUrl(segments: seq<string>): (url: string)
    ensures |url| >= 1 && url[0] == '/'
    ensures segments == [] ==> url == "/"
    ensures |url| >= |segments|
  {
    JoinLength(EncodeSegments(segments), '/');
    "/" + Join(EncodeSegments(segments), '/')
  }

  /**
    What a reader of such a URL recovers: the text after the leading `/`,
    split at every `/`, each piece passed through `decodeURIComponent`.
  */
  function ParseUrl(url: string): Option<seq<string>> {
    if |url| == 0 || url[0] != '/' then None
    else DecodeSegments(Split(url[1..], '/'))
  }

  function DecodeSegments(parts: seq<string>): (r: Option<seq<string>>)
    ensures r.Some? ==> |r.value| == |parts|
  {
    if parts == [] then Some([])
    else match (UriComponent.Decode(parts[0]), DecodeSegments(parts[1..]))
      case (Some(s), Some(rest)) => Some([s] + rest)
      case _ => None
  }

  lemma {:induction false} JoinLength(parts: seq<string>, sep: char)
    ensures |Join(parts, sep)| >= |parts| - 1
    ensures (forall i :: 0 <= i < |parts| ==> |parts[i]| >= 1) ==> |Join(parts, sep)| >= |parts|
  {
    if |parts| > 1 {
      JoinLength(parts[1..], sep);
    }
  }

  /** Splitting a piece free of the separator glued in front of `t` extends the first piece of `t`. */
  lemma {:induction false} SplitPrepend(p: string, t: string, sep: char)
    requires sep !in p
    ensures Split(p + t, sep) == [p + Split(t, sep)[0]] + Split(t, sep)[1..]
    decreases |p|
  {
    if p != [] {
      assert (p + t)[1..] == p[1..] + t;
      SplitPrepend(p[1..], t, sep);
      assert [p[0]] + (p[1..] + Split(t, sep)[0]) == p + Split(t, sep)[0];
    } else {
      var r := Split(t, sep);
      assert p + t == t && p + r[0] == r[0];
      assert [r[0]] + r[1..] == r;
    }
  }

  /** Splitting a join of separator-free pieces gives the pieces back. */
  lemma {:induction false} SplitJoin(parts: seq<string>, sep: char)
    requires |parts| >= 1
    requires forall i :: 0 <= i < |parts| ==> sep !in parts[i]
    ensures Split(Join(parts, sep), sep) == parts
  {
    if |parts| == 1 {
      SplitPrepend(parts[0], [], sep);
      assert parts[0] + [] == parts[0];
    } else {
      var rest := Join(parts[1..], sep);
      SplitJoin(parts[1..], sep);
      assert parts[0] + [sep] + rest == parts[0] + ([sep] + rest);
      SplitPrepend(parts[0], [sep] + rest, sep);
      assert ([sep] + rest)[1..] == rest;
      assert parts[0] + [] == parts[0];
      assert [parts[0]] + parts[1..] == parts;
    }
  }

  /**
    Every segment becomes exactly one piece of the URL, in order: splitting
    what follows the leading `/` gives back the encoded segments, one per
    segment. (For the empty list, `generateUrl` gives `/`, which splits into
    one empty piece, so the list must not be empty.)
  */
  lemma {:induction false} GenerateUrlSplit(segments: seq<string>)
    requires |segments| >= 1
    ensures Split(GenerateUrl(segments)[1..], '/') == EncodeSegments(segments)
    ensures |Split(GenerateUrl(segments)[1..], '/')| == |segments|
  {
    var parts := EncodeSegments(segments);
    assert GenerateUrl(segments)[1..] == Join(parts, '/');
    SplitJoin(parts, '/');
  }

  lemma {:induction false} DecodeEncodedSegments(segments: seq<string>)
    ensures DecodeSegments(EncodeSegments(segments)) == Some(segments)
  {
    if segments != [] {
      DecodeEncodedSegments(segments[1..]);
      UriComponent.DecodeEncode(segments[0]);
      assert EncodeSegments(segments)[1..] == EncodeSegments(segments[1..]);
      assert [segments[0]] + segments[1..] == segments;
    }
  }

  /** Reading a generated URL gives back the segments it was built from. */
  lemma {:induction false} ParseGenerateUrl(segments: seq<string>)
    requires |segments| >= 1
    ensures ParseUrl(GenerateUrl(segments)) == Some(segments)
  {
    GenerateUrlSplit(segments);
    DecodeEncodedSegments(segments);
  }

  /** Different non-empty segment lists give different URLs. */
  lemma GenerateUrlInjective(a: seq<string>, b: seq<string>)
    requires |a| >= 1 && |b| >= 1
    requires GenerateUrl(a) == GenerateUrl(b)
    ensures a == b
  {
    ParseGenerateUrl(a);
    ParseGenerateUrl(b);
  }

  /** The empty list and the list of one empty segment share the URL `/`. */
  lemma EmptySegmentCollides()
    ensures GenerateUrl([]) == GenerateUrl([""]) == "/"
  {
  }

  lemma {:induction false} JoinPrefix(parts: seq<string>, k: nat, sep: char)
    requires 1 <= k <= |parts|
    ensures Join(parts[..k], sep) <= Join(parts, sep)
    ensures k < |parts| ==> |Join(parts[..k], sep)| < |Join(parts, sep)| &&
                            Join(parts, sep)[|Join(parts[..k], sep)|] == sep
  {
    if k < |parts| {
      var tail := Join(parts[1..], sep);
      assert Join(parts, sep) == parts[0] + [sep] + tail;
      if k == 1 {
        assert parts[..1] == [parts[0]];
      } else {
        JoinPrefix(parts[1..], k - 1, sep);
        assert parts[..k][1..] == parts[1..][..k - 1];
        assert Join(parts[..k], sep) == parts[0] + [sep] + Join(parts[1..][..k - 1], sep);
      }
    } else {
      assert parts[..k] == parts;
    }
  }

  /**
    `generateUrl` is prefix-monotone: the URL of the first `k` segments is a
    prefix of the URL of all of them, and when segments remain it stops just
    before a `/`, at a segment boundary.
  */
  lemma {:induction false} GenerateUrlPrefix(segments: seq<string>, k: nat)
    requires k <= |segments|
    ensures GenerateUrl(segments[..k]) <= GenerateUrl(segments)
    ensures 1 <= k < |segments| ==>
      |GenerateUrl(segments[..k])| < |GenerateUrl(segments)| &&
      GenerateUrl(segments)[|GenerateUrl(segments[..k])|] == '/'
  {
    var parts := EncodeSegments(segments);
    assert EncodeSegments(segments[..k]) == parts[..k];
    if k >= 1 {
      JoinPrefix(parts, k, '/');
    }
  }
}
