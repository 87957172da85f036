/** The playlist of the audio app (apps/day02-audio-equalizer/app.js): metadata-only
    YouTube entries and their URL guard, track removal, and the `.eqpl` export payload and
    its import merge. Ids and timestamps are opaque strings supplied by the caller. */
module Playlist {
  import opened Common
  import opened Seqs

  /** One playlist entry. JavaScript's `undefined` and `null` fields are both `None`. */
  datatype Track = Track(
    id: string,
    kind: string,
    title: string,
    filename: Option<string>,
    url: Option<string>,
    fetchedFrom: Option<string>,
    addedAt: string)

  function Ids(pl: seq<Track>): set<string> {
    set t | t in pl :: t.id
  }

  /* ---------- the YouTube URL guard ---------- */

  /** The host part of `/^https?:\/\/(www\.)?(youtube\.com|youtu\.be)\//`, tried as the
      regular expression tries it: with `www.` first, then without. */
  predicate HostMatches(rest: string) {
    StartsWith(rest, "youtube.com/") || StartsWith(rest, "youtu.be/")
  }

  predicate AfterScheme(rest: string) {
    (StartsWith(rest, "www.") && HostMatches(rest[4..])) || HostMatches(rest)
  }

  /** The guard of addYouTubeMetadata, following the structure of its regular expression. */
  predicate IsYouTubeUrl(u: string) {
    (StartsWith(u, "http://") && AfterScheme(u[7..]))
    || (StartsWith(u, "https://") && AfterScheme(u[8..]))
  }

  /** The eight URL prefixes the pattern accepts: each scheme before each host prefix. */
  const YouTubePrefixes: seq<string> := [
    "http://" + Hosts[0], "http://" + Hosts[1], "http://" + Hosts[2], "http://" + Hosts[3],
    "https://" + Hosts[0], "https://" + Hosts[1], "https://" + Hosts[2], "https://" + Hosts[3]
  ]

  predicate HasYouTubePrefix(u: string) {
    exists k :: 0 <= k < |YouTubePrefixes| && StartsWith(u, YouTubePrefixes[k])
  }

  lemma StartsWithSplit(u: string, a: string, b: string)
    ensures StartsWith(u, a + b) <==> StartsWith(u, a) && StartsWith(u[|a|..], b)
  {
    if StartsWith(u, a + b) {
      assert u[..|a|] == (a + b)[..|a|];
      assert u[|a|..][..|b|] == u[..|a + b|][|a|..];
    }
    if StartsWith(u, a) && StartsWith(u[|a|..], b) {
      assert u[..|a + b|] == u[..|a|] + u[|a|..][..|b|];
    }
  }

  /** After a scheme, the host part matches exactly when one of the four host prefixes
      follows. */
  lemma AfterSchemeIffPrefix(rest: string)
    ensures AfterScheme(rest) <==>
              StartsWith(rest, Hosts[0]) || StartsWith(rest, Hosts[1]) ||
              StartsWith(rest, Hosts[2]) || StartsWith(rest, Hosts[3])
  {
    StartsWithSplit(rest, "www.", "youtube.com/");
    StartsWithSplit(rest, "www.", "youtu.be/");
    assert "www." + "youtube.com/" == "www.youtube.com/";
    assert "www." + "youtu.be/" == "www.youtu.be/";
  }

  /** The four host prefixes that may follow the scheme. */
  const Hosts: seq<string> := ["youtube.com/", "youtu.be/", "www.youtube.com/", "www.youtu.be/"]

  lemma SchemeHost(u: string, scheme: string, k: nat)
    requires k < 4
    ensures StartsWith(u, scheme + Hosts[k]) <==> StartsWith(u, scheme) && StartsWith(u[|scheme|..], Hosts[k])
  {
    StartsWithSplit(u, scheme, Hosts[k]);
  }

  lemma PrefixShape(k: nat)
    requires k < 8
    ensures YouTubePrefixes[k] == (if k < 4 then "http://" else "https://") + Hosts[k % 4]
  {
    if k >= 4 {
      assert k % 4 == k - 4;
    }
  }

  lemma GuardHasPrefix(u: string)
    requires IsYouTubeUrl(u)
    ensures HasYouTubePrefix(u)
  {
    var scheme := if StartsWith(u, "http://") && AfterScheme(u[7..]) then "http://" else "https://";
    AfterSchemeIffPrefix(u[|scheme|..]);
    var h :| 0 <= h < 4 && StartsWith(u[|scheme|..], Hosts[h]);
    SchemeHost(u, scheme, h);
    var k := if scheme == "http://" then h else h + 4;
    PrefixShape(k);
    assert StartsWith(u, YouTubePrefixes[k]);
  }

  lemma PrefixPassesGuard(u: string)
    requires HasYouTubePrefix(u)
    ensures IsYouTubeUrl(u)
  {
    var k :| 0 <= k < 8 && StartsWith(u, YouTubePrefixes[k]);
    var scheme := if k < 4 then "http://" else "https://";
    PrefixShape(k);
    SchemeHost(u, scheme, k % 4);
    AfterSchemeIffPrefix(u[|scheme|..]);
  }

  /** The guard accepts a URL exactly when it starts with one of the eight prefixes. */
  lemma YouTubeGuardIffPrefix(u: string)
    ensures IsYouTubeUrl(u) <==> HasYouTubePrefix(u)
  {
    if IsYouTubeUrl(u) {
      GuardHasPrefix(u);
    }
    if HasYouTubePrefix(u) {
      PrefixPassesGuard(u);
    }
  }

  /** addYouTubeMetadata: a valid URL puts a metadata-only entry at the front; any other
      text leaves the playlist as it was. */
  function AddYouTubeMetadata(pl: seq<Track>, u: string, id: string, now: string): (r: seq<Track>)
    ensures HasYouTubePrefix(u) ==> |r| == |pl| + 1 && r[1..] == pl
    ensures HasYouTubePrefix(u) ==> r[0] == Track(id, "youtube", u, None, Some(u), None, now)
    ensures !HasYouTubePrefix(u) ==> r == pl
  {
    YouTubeGuardIffPrefix(u);
    if IsYouTubeUrl(u) then [Track(id, "youtube", u, None, Some(u), None, now)] + pl else pl
  }

  /* ---------- removal ---------- */

  /** removeTrack: every entry with the id goes; the others stay, in their order. */
  function RemoveTrack(pl: seq<Track>, id: string): (r: seq<Track>)
    ensures id !in Ids(r)
    ensures forall i :: 0 <= i < |pl| && pl[i].id != id ==> pl[i] in r
    ensures forall t :: t in r ==> t in pl
    ensures IsSubseq(r, pl)
    ensures forall t :: multiset(r)[t] == (if t.id != id then multiset(pl)[t] else 0)
  {
    FilterIsSubseq(pl, (t: Track) => t.id != id);
    FilterCounts(pl, (t: Track) => t.id != id);
    Filter(pl, (t: Track) => t.id != id)
  }

  /* ---------- export ---------- */

  const Format := "day02-eqpl"

  /** `x || null` for an optional string field. */
  function OrNull(o: Option<string>): (r: Option<string>)
    ensures r != Some("")
    ensures o != Some("") ==> r == o
  {
    if o == Some("") then None else o
  }

  function ExportTrack(t: Track): Track {
    t.(filename := OrNull(t.filename), url := OrNull(t.url), fetchedFrom := OrNull(t.fetchedFrom))
  }

  /** The `tracks` of the export payload (line 412), or `None` when the playlist is empty
      and export is refused. The format tag, version, time stamp and password are left out. */
  function ExportTracks(pl: seq<Track>): (r: Option<seq<Track>>)
    ensures r.None? <==> |pl| == 0
    ensures r.Some? ==> |r.value| == |pl|
    ensures r.Some? ==> forall i :: 0 <= i < |pl| ==>
              r.value[i].id == pl[i].id && r.value[i].kind == pl[i].kind &&
              r.value[i].title == pl[i].title && r.value[i].addedAt == pl[i].addedAt
    ensures r.Some? ==> forall i :: 0 <= i < |pl| ==>
              r.value[i].filename != Some("") && r.value[i].url != Some("") &&
              r.value[i].fetchedFrom != Some("")
    ensures r.Some? ==> forall i :: 0 <= i < |pl| ==>
              r.value[i].filename == OrNull(pl[i].filename) && r.value[i].url == OrNull(pl[i].url) &&
              r.value[i].fetchedFrom == OrNull(pl[i].fetchedFrom)
  {
    if |pl| == 0 then None else Some(seq(|pl|, i requires 0 <= i < |pl| => ExportTrack(pl[i])))
  }

  /* ---------- import ---------- */

  /** A parsed `.eqpl` file: `None` for a falsy value; `format` is `None` when absent or not
      a string; `tracks` is `None` when the field is not an array. */
  datatype EqplFile = EqplFile(format: Option<string>, tracks: Option<seq<Track>>)

  datatype ImportResult = Rejected | Imported(playlist: seq<Track>, added: nat)

  /** The import merge as a single definition: the incoming tracks whose id was not in the
      playlist before the import, appended in file order, each as often as the file lists
      it. */
  function Merge(pl: seq<Track>, incoming: seq<Track>): (r: seq<Track>)
    ensures |r| >= |pl| && r[..|pl|] == pl
    ensures forall i :: |pl| <= i < |r| ==> r[i] in incoming && r[i].id !in Ids(pl)
    ensures forall i :: 0 <= i < |incoming| && incoming[i].id !in Ids(pl) ==> incoming[i] in r[|pl|..]
    ensures IsSubseq(r[|pl|..], incoming)
    ensures forall t :: multiset(r[|pl|..])[t] == (if t.id !in Ids(pl) then multiset(incoming)[t] else 0)
  {
    var added := Filter(incoming, AbsentFrom(Ids(pl)));
    FilterIsSubseq(incoming, AbsentFrom(Ids(pl)));
    FilterCounts(incoming, AbsentFrom(Ids(pl)));
    assert (pl + added)[|pl|..] == added;
    pl + added
  }

  /** Whether a track's id is missing from a set of ids. */
  function AbsentFrom(ids: set<string>): Track -> bool {
    (t: Track) => t.id !in ids
  }

  /** importEqplFile: rejects anything but a `day02-eqpl` file, treats a non-array `tracks`
      as empty, and appends each track whose id was absent before the import, counting
      them. */
  method ImportEqpl(pl: seq<Track>, file: Option<EqplFile>) returns (r: ImportResult)
    ensures r.Rejected? <==> file.None? || file.value.format != Some(Format)
    ensures r.Imported? ==> r.playlist == Merge(pl, file.value.tracks.GetOr([]))
    ensures r.Imported? ==> r.added == |r.playlist| - |pl|
  {
    if file.None? || file.value.format != Some(Format) {
      return Rejected;
    }
    var imported := file.value.tracks.GetOr([]);
    var existing := Ids(pl);
    var keep := AbsentFrom(existing);
    var out := pl;
    var added := 0;
    for i := 0 to |imported|
      invariant out == pl + Filter(imported[..i], keep)
      invariant added == |out| - |pl|
    {
      var t := imported[i];
      FilterSnoc(imported, i, keep);
      if t.id !in existing {
        out := out + [t];
        added := added + 1;
      }
    }
    assert imported[..|imported|] == imported;
    return Imported(out, added);
  }

  /** The tracks already present come through an import untouched, at the front. */
  lemma MergeKeepsPlaylist(pl: seq<Track>, incoming: seq<Track>)
    ensures Merge(pl, incoming)[..|pl|] == pl
    ensures forall i :: |pl| <= i < |Merge(pl, incoming)| ==>
              Merge(pl, incoming)[i] in incoming && Merge(pl, incoming)[i].id !in Ids(pl)
  {
  }

  /** Importing an export into an empty playlist yields the exported records. */
  lemma {:induction false} ImportExportIntoEmpty(pl: seq<Track>)
    requires |pl| > 0
    ensures Merge([], ExportTracks(pl).value) == ExportTracks(pl).value
  {
    var ex := ExportTracks(pl).value;
    var keep := AbsentFrom(Ids([]));
    assert Ids([]) == {};
    forall i | 0 <= i < |ex| ensures keep(ex[i]) { }
    FilterKeepsAll(ex, keep);
    assert [] + ex == ex;
  }

  /** Re-importing a playlist's own export adds nothing. */
  lemma {:induction false} ReimportAddsNothing(pl: seq<Track>)
    requires |pl| > 0
    ensures Merge(pl, ExportTracks(pl).value) == pl
  {
    var ex := ExportTracks(pl).value;
    var keep := AbsentFrom(Ids(pl));
    forall i | 0 <= i < |ex|
      ensures !keep(ex[i])
    {
      assert pl[i] in pl;
    }
    FilterNoneKept(ex, keep);
  }
}
