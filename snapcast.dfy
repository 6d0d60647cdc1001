/** The episode model of `src/snapcast.rs`: the registry of fields an update
    may target, the episode record as the server sends it, and the one-line
    rendering used by the listing. */
module Snapcast {
  import opened Rust
  import opened Time

  /** The fields an `update` command may target, in the order the registry lists them. */
  const DatabaseFields: seq<string> := [
    "title", "subtitle", "description", "media_url", "media_size", "media_type",
    "media_duration", "pub_date", "link", "image", "episode_type", "season", "episode"
  ]

  /** The registry has thirteen distinct names and never offers the
      identifiers `id`, `uuid` or `podcast_uuid` for update. */
  lemma DatabaseFieldsShape()
    ensures |DatabaseFields| == 13
    ensures forall i, j :: 0 <= i < j < |DatabaseFields| ==> DatabaseFields[i] != DatabaseFields[j]
    ensures "id" !in DatabaseFields && "uuid" !in DatabaseFields && "podcast_uuid" !in DatabaseFields
  {
  }

  /** One episode as fetched from the server. `pubDate` is kept with the
      offset it was sent in; `uuid` is the key updates are addressed to. */
  datatype Episode = Episode(
    id: i32,
    title: string,
    subtitle: Option<string>,
    description: Option<string>,
    mediaUrl: string,
    mediaSize: i32,
    mediaType: string,
    mediaDuration: Option<i32>,
    pubDate: DateTime,
    link: Option<string>,
    image: Option<string>,
    episodeType: Option<string>,
    season: Option<string>,
    episode: Option<string>,
    uuid: string,
    podcastUuid: string)

  /** `media_duration.unwrap_or_default()`: an absent duration counts as zero seconds. */
  function DurationOf(e: Episode): (d: i32)
    ensures e.mediaDuration.None? ==> d == 0
    ensures e.mediaDuration.Some? ==> d == e.mediaDuration.value
  {
    match e.mediaDuration
    case None => 0
    case Some(d) => d
  }

  /** Hours, minutes and seconds of a duration, as `d / 60 / 60`, `d / 60 % 60`
      and `d % 60` with Rust's truncating operators. They recompose to `d`;
      for a non-negative `d` minutes and seconds are below 60 and the hours
      are the whole hours in `d`. */
  function DurationParts(d: i32): (hms: (int, int, int))
    ensures hms.0 * 3600 + hms.1 * 60 + hms.2 == d
    ensures d >= 0 ==> hms.0 == d / 3600 && 0 <= hms.1 < 60 && 0 <= hms.2 < 60
    ensures d < 0 ==> hms.0 <= 0 && -60 < hms.1 <= 0 && -60 < hms.2 <= 0
  {
    var minutes := TruncDiv(d, 60);
    var hh, mm, ss := TruncDiv(minutes, 60), TruncRem(minutes, 60), TruncRem(d, 60);
    assert minutes == 60 * hh + mm;
    assert d >= 0 ==> d / 3600 == minutes / 60;
    (hh, mm, ss)
  }

  /** The title as shown: with a known terminal width `w`, its first `w - 38`
      characters (the other columns take 38); with no terminal, all of it.
      `(w as usize) - 38` panics when `w < 38`. */
  function ShownTitle(title: string, width: Option<u16>): (r: Outcome<string>)
    ensures width.None? ==> r == Ok(title)
    ensures width.Some? && width.value < 38 ==> r == Panic(SubOverflow)
    ensures width.Some? && width.value >= 38 ==>
              r.Ok? && |r.value| == Min(|title|, width.value - 38) && r.value <= title
  {
    match width
    case None => Ok(title)
    case Some(w) => if w < 38 then Panic(SubOverflow) else Ok(title[..Min(|title|, w - 38)])
  }

  /** `{hh:2}:{mm:02}:{ss:02}`: hours padded with spaces, minutes and seconds with zeros. */
  function HmsText(h: int, m: int, s: int): string
  {
    FormatInt(h, 2, false) + ":" + FormatInt(m, 2, true) + ":" + FormatInt(s, 2, true)
  }

  /** The duration column of a listing line. */
  function DurationColumn(d: i32): string
  {
    var hms := DurationParts(d);
    HmsText(hms.0, hms.1, hms.2)
  }

  /** Everything on an episode's line before its title:
      `{id:3}│ {pub_date}| {duration}│ {media_size:6.2} MB│ `. The size
      column is the text `megabytes`, computed in floating point by the caller. */
  function Columns(e: Episode, megabytes: string): string
  {
    FormatInt(e.id, 3, false) + "│ " + DateText(e.pubDate.local.date) + "| "
    + DurationColumn(DurationOf(e)) + "│ " + megabytes + " MB│ "
  }

  /** `Display::fmt` of an episode: the columns, then the shown title. It
      fails exactly when the terminal is narrower than 38 characters. */
  function Render(e: Episode, width: Option<u16>, megabytes: string): (r: Outcome<string>)
    ensures r.Ok? <==> width.None? || width.value >= 38
    ensures !r.Ok? ==> r == Panic(SubOverflow)
    ensures r.Ok? ==> Columns(e, megabytes) <= r.value
    ensures r.Ok? && width.None? ==> r.value[|Columns(e, megabytes)|..] == e.title
    ensures r.Ok? && width.Some? ==>
              var shown := r.value[|Columns(e, megabytes)|..];
              shown <= e.title && |shown| == Min(|e.title|, width.value - 38)
  {
    match ShownTitle(e.title, width)
    case Ok(shown) =>
      var line := Columns(e, megabytes) + shown;
      assert line[|Columns(e, megabytes)|..] == shown;
      Ok(line)
    case Err(err) => Err(err)
    case Panic(p) => Panic(p)
  }

  /** With an id of at most three characters, a year in 0..9999, fewer than
      100 hours and a six-character size, the columns take exactly 38
      characters, so a rendered line never exceeds a known terminal width. */
  lemma {:induction false} LineFitsWidth(e: Episode, w: u16, megabytes: string)
    requires -99 <= e.id <= 999
    requires 0 <= e.pubDate.local.date.year
    requires 0 <= DurationOf(e) < 100 * 3600
    requires |megabytes| == 6
    requires w >= 38
    ensures |Columns(e, megabytes)| == 38
    ensures Render(e, Some(w), megabytes).Ok? && |Render(e, Some(w), megabytes).value| <= w
  {
    var d := DurationOf(e);
    var hms := DurationParts(d);
    DecimalWidth(Abs(e.id as int), if e.id < 0 then 100 else 1000);
    DecimalWidth(hms.0, 100);
    DecimalWidth(hms.1, 100);
    DecimalWidth(hms.2, 100);
    assert |DurationColumn(d)| == 8;
  }

  /** Numbers below `10^k` have at most `k` decimal digits (here `k <= 3`). */
  lemma {:induction false} DecimalWidth(n: nat, bound: nat)
    requires n < bound && (bound == 10 || bound == 100 || bound == 1000)
    ensures |Decimal(n)| <= (if bound == 10 then 1 else if bound == 100 then 2 else 3)
    decreases bound
  {
    if n >= 10 {
      DecimalWidth(n / 10, bound / 10);
    }
  }
}
