/**
 * Classification of playable locators: magnet links and `.torrent` URLs.
 *
 * Both script files define `isMagnet` and `isTorrentUrl` with the same code,
 * up to quote style, so this one module models both copies.  Strings are sequences of Unicode
 * scalar values; the regular expressions of the source are written out as
 * predicates over characters.
 */
module Locator {

  /** The characters removed by `String.prototype.trim`: WhiteSpace and LineTerminator. */
  predicate IsTrimmable(c: char) {
    || c == '\t' || c == '\n' || c == '\U{B}' || c == '\U{C}' || c == '\r' || c == ' '
    || c == '\U{A0}' || c == '\U{1680}' || ('\U{2000}' <= c <= '\U{200A}')
    || c == '\U{2028}' || c == '\U{2029}' || c == '\U{202F}' || c == '\U{205F}'
    || c == '\U{3000}' || c == '\U{FEFF}'
  }

  function TrimStart(s: string): string {
    if |s| > 0 && IsTrimmable(s[0]) then TrimStart(s[1..]) else s
  }

  function TrimEnd(s: string): string {
    if |s| > 0 && IsTrimmable(s[|s| - 1]) then TrimEnd(s[..|s| - 1]) else s
  }

  function Trim(s: string): string {
    TrimEnd(TrimStart(s))
  }

  /** `t` starts and ends with a non-trimmable character (or is empty). */
  predicate IsTrimmed(t: string) {
    t == [] || (!IsTrimmable(t[0]) && !IsTrimmable(t[|t| - 1]))
  }

  lemma {:induction false} TrimStartShape(s: string) returns (i: nat)
    ensures i <= |s| && TrimStart(s) == s[i..]
    ensures forall k :: 0 <= k < i ==> IsTrimmable(s[k])
    ensures i < |s| ==> !IsTrimmable(s[i])
  {
    if |s| > 0 && IsTrimmable(s[0]) {
      var i' := TrimStartShape(s[1..]);
      i := i' + 1;
      assert s[1..][i'..] == s[i..];
      forall k | 0 <= k < i ensures IsTrimmable(s[k]) {
        if k > 0 { assert s[k] == s[1..][k - 1]; }
      }
    } else {
      i := 0;
    }
  }

  lemma {:induction false} TrimEndShape(s: string) returns (j: nat)
    ensures j <= |s| && TrimEnd(s) == s[..j]
    ensures forall k :: j <= k < |s| ==> IsTrimmable(s[k])
    ensures 0 < j ==> !IsTrimmable(s[j - 1])
  {
    if |s| > 0 && IsTrimmable(s[|s| - 1]) {
      j := TrimEndShape(s[..|s| - 1]);
      assert s[..|s| - 1][..j] == s[..j];
      forall k | j <= k < |s| ensures IsTrimmable(s[k]) {
        if k < |s| - 1 { assert s[k] == s[..|s| - 1][k]; }
      }
    } else {
      j := |s|;
    }
  }

  /**
   * Trim removes exactly a run of trimmable characters at each end: the result
   * is the slice `s[i..j]` and it neither starts nor ends with one.
   */
  lemma TrimShape(s: string) returns (i: nat, j: nat)
    ensures i <= j <= |s| && Trim(s) == s[i..j]
    ensures forall k :: 0 <= k < i || j <= k < |s| ==> IsTrimmable(s[k])
    ensures IsTrimmed(Trim(s))
  {
    i := TrimStartShape(s);
    var j' := TrimEndShape(s[i..]);
    j := i + j';
    assert s[i..][..j'] == s[i..j];
    forall k | j <= k < |s| ensures IsTrimmable(s[k]) {
      assert s[k] == s[i..][k - i];
    }
    if j' > 0 {
      assert s[i..j][0] == s[i];
      assert s[i..j][j' - 1] == s[i..][j' - 1];
    }
  }

  /** A string that is already trimmed is left alone by Trim. */
  lemma TrimOfTrimmed(t: string)
    requires IsTrimmed(t)
    ensures Trim(t) == t
  {
    assert TrimStart(t) == t;
    assert TrimEnd(t) == t;
  }

  /** Trimming twice is trimming once. */
  lemma TrimIdempotent(s: string)
    ensures Trim(Trim(s)) == Trim(s)
  {
    var _, _ := TrimShape(s);
    TrimOfTrimmed(Trim(s));
  }

  /** ASCII-only case folding: what the `i` flag of a non-Unicode regular expression does to letters of these patterns. */
  function LowerAscii(c: char): char {
    if 'A' <= c <= 'Z' then (c as int + 32) as char else c
  }

  /** `s` starts with `prefix`, letters compared without regard to ASCII case; `prefix` is written in lower case. */
  predicate StartsWithIgnoringCase(s: string, prefix: string) {
    |prefix| <= |s| && forall k :: 0 <= k < |prefix| ==> LowerAscii(s[k]) == prefix[k]
  }

  const TorrentExtension: string := ".torrent"

  /** `/\.torrent(\?|#|$)/i` matches at index `i` of `t`. */
  predicate TorrentMarkerAt(t: string, i: nat) {
    && i + |TorrentExtension| <= |t|
    && StartsWithIgnoringCase(t[i..], TorrentExtension)
    && (i + |TorrentExtension| == |t| || t[i + |TorrentExtension|] == '?' || t[i + |TorrentExtension|] == '#')
  }

  /** The regular expression's search, as a left-to-right scan from index `i`. */
  predicate TorrentMarkerFrom(t: string, i: nat)
    decreases |t| - i
  {
    i + |TorrentExtension| <= |t| && (TorrentMarkerAt(t, i) || TorrentMarkerFrom(t, i + 1))
  }

  predicate HasTorrentMarker(t: string) {
    TorrentMarkerFrom(t, 0)
  }

  lemma {:induction false} TorrentMarkerFromMeaning(t: string, i: nat)
    ensures TorrentMarkerFrom(t, i) <==> exists k: nat :: i <= k && TorrentMarkerAt(t, k)
    decreases |t| - i
  {
    if i + |TorrentExtension| <= |t| {
      TorrentMarkerFromMeaning(t, i + 1);
      if exists k: nat :: i <= k && TorrentMarkerAt(t, k) {
        var k: nat :| i <= k && TorrentMarkerAt(t, k);
        assert k == i || (i + 1 <= k && TorrentMarkerAt(t, k));
      }
    } else {
      assert forall k: nat :: i <= k ==> !TorrentMarkerAt(t, k);
    }
  }

  /** The scan finds a match exactly when the pattern matches at some index. */
  lemma HasTorrentMarkerMeaning(t: string)
    ensures HasTorrentMarker(t) <==> exists k: nat :: TorrentMarkerAt(t, k)
  {
    TorrentMarkerFromMeaning(t, 0);
  }

  /** `isMagnet` (webtor-rect-overlay.v11.js:67, webtor-torrents-ui.v10.js:9). */
  predicate IsMagnet(s: string) {
    "magnet:?" <= Trim(s)
  }

  /** `isTorrentUrl` (webtor-rect-overlay.v11.js:68-72, webtor-torrents-ui.v10.js:10-14). */
  predicate IsTorrentUrl(s: string) {
    var t := Trim(s);
    (StartsWithIgnoringCase(t, "http://") || StartsWithIgnoringCase(t, "https://"))
    && HasTorrentMarker(t)
  }

  /** A locator the widget can play: the guard shared by mounting, loading and adding. */
  predicate IsPlayable(s: string) {
    IsMagnet(s) || IsTorrentUrl(s)
  }

  /** Classification reads the trimmed text only, so trimming first changes nothing. */
  lemma ClassifyTrimmed(s: string)
    ensures IsMagnet(Trim(s)) == IsMagnet(s)
    ensures IsTorrentUrl(Trim(s)) == IsTorrentUrl(s)
  {
    TrimIdempotent(s);
  }

  /** No string is both a magnet link and a torrent URL: the first character decides. */
  lemma MagnetIsNotTorrentUrl(s: string)
    ensures !(IsMagnet(s) && IsTorrentUrl(s))
  {
    var t := Trim(s);
    if IsMagnet(s) {
      assert t[0] == 'm';
      assert LowerAscii(t[0]) == 'm';
    }
  }

  /** One index where the pattern matches is enough for the scan to succeed. */
  lemma TorrentMarkerWitness(t: string, k: nat)
    requires TorrentMarkerAt(t, k)
    ensures HasTorrentMarker(t)
  {
    HasTorrentMarkerMeaning(t);
  }

  /** The scan fails when no dot early enough in `t` is followed by a `t`. */
  lemma NoTorrentMarker(t: string)
    requires forall k :: 0 <= k && k + |TorrentExtension| <= |t| && t[k] == '.' ==> LowerAscii(t[k + 1]) != 't'
    ensures !HasTorrentMarker(t)
  {
    HasTorrentMarkerMeaning(t);
    forall k: nat | k + |TorrentExtension| <= |t|
      ensures !StartsWithIgnoringCase(t[k..], TorrentExtension)
    {
      if t[k] == '.' {
        assert t[k..][1] == t[k + 1];
      } else {
        assert t[k..][0] == t[k];
      }
    }
  }

  /*
   * Worked examples.  The text is a parameter fixed by the requires clause, so
   * the verifier reasons about it instead of evaluating Trim and the scan on a
   * literal.
   */

  lemma AcceptsMagnet(m: string)
    requires m == "magnet:?xt=urn:btih:abc"
    ensures IsMagnet(m) && !IsTorrentUrl(m)
  {
    TrimOfTrimmed(m);
  }

  /** A `.torrent` URL with no query: the pattern matches at the end of the text. */
  lemma AcceptsTorrentUrl(u: string)
    requires u == "https://example.com/a/file.torrent"
    ensures IsTorrentUrl(u) && !IsMagnet(u)
  {
    TrimOfTrimmed(u);
    assert StartsWithIgnoringCase(u, "https://");
    assert TorrentMarkerAt(u, 26);
    TorrentMarkerWitness(u, 26);
  }

  /** A `.torrent` URL followed by a query string. */
  lemma AcceptsTorrentUrlWithQuery(v: string)
    requires v == "https://example.com/a/file.torrent?x=1"
    ensures IsTorrentUrl(v) && !IsMagnet(v)
  {
    TrimOfTrimmed(v);
    assert StartsWithIgnoringCase(v, "https://");
    assert TorrentMarkerAt(v, 26);
    TorrentMarkerWitness(v, 26);
  }

  /** A `.torrent` path behind a scheme other than http or https. */
  lemma RejectsFtp(f: string)
    requires f == "ftp://x/file.torrent"
    ensures !IsPlayable(f)
  {
    TrimOfTrimmed(f);
  }

  /** An https URL whose path does not contain `.torrent`. */
  lemma RejectsOtherExtension(h: string)
    requires h == "https://example.com/file.txt"
    ensures !IsPlayable(h)
  {
    TrimOfTrimmed(h);
    assert h[..15] == "https://example" && h[16..21] == "com/f";
    assert '.' !in h[..15] && '.' !in h[16..21];
    forall k | 0 <= k < 21 && k != 15 ensures h[k] != '.' {
      if k < 15 { assert h[k] in h[..15]; } else { assert h[k] in h[16..21]; }
    }
    NoTorrentMarker(h);
  }
}
