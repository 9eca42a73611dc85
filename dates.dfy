/**
  get_file_date: the capture date of a file, from its EXIF "Image DateTime"
  tag when the tag is there, from its modification time otherwise.
 */
module Dates {
  import opened Options

  /** A datetime value; what datetime.strptime and datetime.fromtimestamp
      return (microseconds play no part and are left out). */
  datatype DateTime = DateTime(year: nat, month: nat, day: nat, hour: nat, minute: nat, second: nat)

  predicate IsLeapYear(y: nat)
  {
    y % 4 == 0 && (y % 100 != 0 || y % 400 == 0)
  }

  function DaysInMonth(y: nat, m: nat): nat
  {
    if m == 2 then (if IsLeapYear(y) then 29 else 28)
    else if m == 4 || m == 6 || m == 9 || m == 11 then 30
    else 31
  }

  /** The range every Python datetime lies in. */
  predicate ValidDateTime(d: DateTime)
  {
    && 1 <= d.year <= 9999
    && 1 <= d.month <= 12
    && 1 <= d.day <= DaysInMonth(d.year, d.month)
    && d.hour < 24 && d.minute < 60 && d.second < 60
  }

  /** DATETIME_EXIF_TAG */
  const DateTimeTag := "Image DateTime"

  /** DATETIME_EXIF_TAG_FORMAT, the format strptime is given. */
  const DateTimeFormat := "%Y:%m:%d %H:%M:%S"

  /** The EXIF tags of a file as exifread reports them (tag name to printed
      value), the strptime parse of a tag value with DateTimeFormat (None
      where it raises ValueError) and the file's mtime are inputs. A tag
      that is present decides alone: when it does not parse the result is
      None and the mtime is not consulted. */
  function FileDate(tags: map<string, string>, parse: string -> Option<DateTime>, mtime: DateTime): (r: Option<DateTime>)
    ensures r.None? <==> DateTimeTag in tags && parse(tags[DateTimeTag]).None?
    ensures DateTimeTag in tags ==> r == parse(tags[DateTimeTag])
    ensures DateTimeTag !in tags ==> r == Some(mtime)
  {
    if DateTimeTag in tags then parse(tags[DateTimeTag]) else Some(mtime)
  }

  /** With the tag present the mtime plays no part: a malformed tag gives
      None whatever the mtime is. */
  lemma TagOverridesMtime(tags: map<string, string>, parse: string -> Option<DateTime>, m1: DateTime, m2: DateTime)
    requires DateTimeTag in tags
    ensures FileDate(tags, parse, m1) == FileDate(tags, parse, m2)
    ensures parse(tags[DateTimeTag]).None? ==> FileDate(tags, parse, m1) == None
  {
  }
}
