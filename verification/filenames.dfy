/** The naming convention that is the downloader's only persisted state:
    every day is stored as `AGH_sp500_<YYYY-MM-DD>.csv`, and both inventory
    listers read the date back with the Python slice `name[-14:-4]`. */
module FileNames {
  import opened Dates
  import opened Paths

  const Prefix: string := "AGH_sp500_"
  const Extension: string := ".csv"

  /** The name a downloaded day is written under. */
  function FileName(d: Date): (name: string)
    requires Valid(d)
    ensures |name| == |Prefix| + 10 + |Extension|
    ensures name[..|Prefix|] == Prefix && name[|name| - |Extension|..] == Extension
    ensures name[|Prefix|..|Prefix| + 10] == Format(d)
    ensures IsEntryName(name)
  {
    var f := Format(d);
    var name := Prefix + f + Extension;
    assert name[|Prefix|..|Prefix| + 10] == f;
    assert forall i :: 0 <= i < 10 ==> name[|Prefix| + i] == f[i];
    assert forall i :: 0 <= i < |f| ==> f[i] != '/' by {
      forall i | 0 <= i < |f|
        ensures f[i] != '/'
      {
        if i < 4 { assert f[..4][i] == f[i]; }
        else if 5 <= i < 7 { assert f[5..7][i - 5] == f[i]; }
        else if 8 <= i { assert f[8..][i - 8] == f[i]; }
      }
    }
    name
  }

  /** Python's bound normalisation for a slice index on a sequence of
      length `len` (step 1): negative indices count from the end, and both
      kinds are clamped into `0..len`. */
  function SliceBound(i: int, len: nat): (b: nat)
    ensures b <= len
  {
    if i < 0 then (if i + len < 0 then 0 else i + len)
    else if i > len then len
    else i
  }

  /** Python's `s[lo:hi]`: in-range non-negative bounds take `s[lo..hi]`,
      in-range negative bounds count from the end, and crossed bounds give
      the empty string. */
  function PySlice(s: string, lo: int, hi: int): (r: string)
    ensures |r| <= |s|
    ensures 0 <= lo <= hi <= |s| ==> r == s[lo..hi]
    ensures -|s| <= lo <= hi < 0 ==> r == s[|s| + lo..|s| + hi]
    ensures (0 <= hi <= lo || hi <= lo < 0) ==> r == []
  {
    var a := SliceBound(lo, |s|);
    var b := SliceBound(hi, |s|);
    if a < b then s[a..b] else []
  }

  /** `name[-14:-4]`, the date field both listers extract. */
  function DateField(name: string): (r: string)
    ensures |name| >= 14 ==> r == name[|name| - 14..|name| - 4]
    ensures |name| < 14 ==> |r| < 10
  {
    PySlice(name, -14, -4)
  }

  /** The slice recovers any 10-character field followed by a 4-character
      extension, whatever precedes it. */
  lemma FieldRoundTrip(prefix: string, field: string, ext: string)
    requires |field| == 10 && |ext| == 4
    ensures DateField(prefix + field + ext) == field
  {
    var name := prefix + field + ext;
    assert name[|name| - 14..|name| - 4] == field;
  }

  /** Round trip of the naming convention: the date field of the written
      name, with any directory prefix in front, is exactly the date's string. */
  lemma FileNameRoundTrip(prefix: string, d: Date)
    requires Valid(d)
    ensures DateField(prefix + FileName(d)) == Format(d)
  {
    assert prefix + FileName(d) == (prefix + Prefix) + Format(d) + Extension;
    FieldRoundTrip(prefix + Prefix, Format(d), Extension);
  }

  /** The inventory a lister returns: the date field of every name. */
  function Inventory(names: set<string>): (inv: set<string>)
    ensures forall n :: n in names ==> DateField(n) in inv
    ensures forall s :: s in inv ==> exists n :: n in names && DateField(n) == s
  {
    set n | n in names :: DateField(n)
  }

  /** A day written under its file name shows up in the inventory of any
      listing that contains that name. */
  lemma WrittenDayIsListed(names: set<string>, d: Date)
    requires Valid(d) && FileName(d) in names
    ensures Format(d) in Inventory(names)
  {
    FileNameRoundTrip([], d);
    assert [] + FileName(d) == FileName(d);
  }
}
