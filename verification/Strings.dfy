/** Printable strings of a byte buffer, as ASCII and as UTF-16LE (core/strings.py), and what
    extracting them window by window finds of a whole run (app/tools_strings.py). */
module Strings {
  import opened Sequences
  import opened ScanWindows
  import opened WindowedDetection

  /** Which encodings a scan looks for, and the fewest characters it reports. */
  datatype Wanted = Wanted(ascii: bool, utf16: bool, minLength: int)

  /** A string found at some offset; `wide` strings are UTF-16LE. */
  datatype Text = Text(wide: bool, chars: int)

  predicate Printable(b: byte) { 0x20 <= b <= 0x7E || b == 0x09 || b == 0x0A || b == 0x0D }

  /** Bytes of one character. */
  function Width(wide: bool): int { if wide then 2 else 1 }

  /** Is there a character at `p`? */
  predicate CharAt(data: seq<byte>, p: int, wide: bool) {
    0 <= p && p + Width(wide) <= |data| && Printable(data[p]) && (wide ==> data[p + 1] == 0)
  }

  /** How many characters follow each other from `p` on. */
  function Chars(data: seq<byte>, p: int, wide: bool): (r: nat)
    ensures CharAt(data, p, wide) ==> r > 0 && p + r * Width(wide) <= |data|
    decreases |data| - p
  {
    if CharAt(data, p, wide) then 1 + Chars(data, p + Width(wide), wide) else 0
  }

  /** A string starts where a character does not continue another one. */
  predicate StartsAt(data: seq<byte>, p: int, wide: bool) {
    CharAt(data, p, wide) && !CharAt(data, p - Width(wide), wide)
  }

  function TextAt(wide: bool, minLength: int, data: seq<byte>, p: int): seq<Text> {
    if StartsAt(data, p, wide) && Chars(data, p, wide) >= minLength then [Text(wide, Chars(data, p, wide))] else []
  }

  /** The strings of one encoding, as a detector. */
  function OneEncoding(wide: bool, minLength: int): Detector<Text> {
    (data: seq<byte>, p: int) => TextAt(wide, minLength, data, p)
  }

  /** The strings of the wanted encodings, as a detector: ASCII before UTF-16LE. */
  function StringsOf(w: Wanted): Detector<Text> {
    (data: seq<byte>, p: int) =>
      (if w.ascii then TextAt(false, w.minLength, data, p) else [])
      + (if w.utf16 then TextAt(true, w.minLength, data, p) else [])
  }

  lemma {:induction false} OnePositionMore(wide: bool, minLength: int, data: seq<byte>, p: nat)
    ensures MatchesBelow(OneEncoding(wide, minLength), data, p + 1)
         == MatchesBelow(OneEncoding(wide, minLength), data, p) + Tagged(TextAt(wide, minLength, data, p), p)
  {
  }

  /** Nothing starts at the zero byte of a wide character. */
  lemma {:induction false} WideCharMore(minLength: int, data: seq<byte>, p: nat)
    requires CharAt(data, p, true)
    ensures MatchesBelow(OneEncoding(true, minLength), data, p + 2)
         == MatchesBelow(OneEncoding(true, minLength), data, p) + Tagged(TextAt(true, minLength, data, p), p)
    ensures !CharAt(data, p + 1, true)
  {
    OnePositionMore(true, minLength, data, p);
    OnePositionMore(true, minLength, data, p + 1);
    AppendNothing(MatchesBelow(OneEncoding(true, minLength), data, p + 1));
  }

  lemma {:induction false} WideCharContinues(minLength: int, data: seq<byte>, p: nat)
    requires CharAt(data, p, true) && CharAt(data, p - 2, true)
    ensures MatchesBelow(OneEncoding(true, minLength), data, p + 2)
              == MatchesBelow(OneEncoding(true, minLength), data, p)
    ensures !CharAt(data, p + 1, true)
  {
    WideCharMore(minLength, data, p);
    AppendNothing(MatchesBelow(OneEncoding(true, minLength), data, p));
  }

  /** A string of `chars` characters is one report when it is long enough, and none otherwise. */
  lemma {:induction false} EmitText(wide: bool, minLength: int, data: seq<byte>, p: int, chars: int)
    requires StartsAt(data, p, wide) && Chars(data, p, wide) == chars
    ensures Tagged(TextAt(wide, minLength, data, p), p)
         == if chars >= minLength then [Report(p, Text(wide, chars))] else []
  {
  }

  // ---- extraction -----------------------------------------------------------------------------

  /** Single-pass ASCII extraction: exactly the strings of the buffer, by position. */
  method ExtractAscii(data: seq<byte>, minLength: int) returns (found: seq<Report<Text>>)
    requires minLength >= 1
    ensures found == WholeReports(OneEncoding(false, minLength), data)
  {
    ghost var at := OneEncoding(false, minLength);
    found := [];
    var runStart := -1;
    for i := 0 to |data|
      invariant -1 <= runStart && (runStart >= 0 ==> runStart < i)
      invariant runStart < 0 ==> found == MatchesBelow(at, data, i) && (i > 0 ==> !Printable(data[i - 1]))
      invariant runStart >= 0 ==> StartsAt(data, runStart, false) && Printable(data[i - 1])
      invariant runStart >= 0 ==> Chars(data, runStart, false) == i - runStart + Chars(data, i, false)
      invariant runStart >= 0 ==>
        MatchesBelow(at, data, i) == found + Tagged(TextAt(false, minLength, data, runStart), runStart)
    {
      OnePositionMore(false, minLength, data, i);
      AppendNothing(MatchesBelow(at, data, i));
      if Printable(data[i]) {
        if runStart < 0 {
          runStart := i;
        }
      } else {
        if runStart >= 0 {
          var length := i - runStart;
          EmitText(false, minLength, data, runStart, length);
          if length >= minLength {
            found := found + [Report(runStart, Text(false, length))];
          }
          runStart := -1;
        }
      }
    }
    if runStart >= 0 {
      var length := |data| - runStart;
      EmitText(false, minLength, data, runStart, length);
      if length >= minLength {
        found := found + [Report(runStart, Text(false, length))];
      }
    }
  }

  /** The matches of the UTF-16LE pattern, leftmost first and as long as possible, the short
      ones dropped: exactly the wide strings of the buffer, whatever their alignment. */
  method ExtractUtf16(data: seq<byte>, minLength: int) returns (found: seq<Report<Text>>)
    requires minLength >= 1
    ensures found == WholeReports(OneEncoding(true, minLength), data)
  {
    ghost var at := OneEncoding(true, minLength);
    found := [];
    var pos := 0;
    while pos < |data|
      invariant 0 <= pos <= |data|
      invariant found == MatchesBelow(at, data, pos)
      invariant !CharAt(data, pos - 1, true)
      invariant CharAt(data, pos - 2, true) ==> !CharAt(data, pos, true)
    {
      if CharAt(data, pos, true) {
        var end, chars := WideRun(data, pos, minLength);
        EmitText(true, minLength, data, pos, chars);
        if chars >= minLength {
          found := found + [Report(pos, Text(true, chars))];
        }
        pos := end;
      } else {
        OnePositionMore(true, minLength, data, pos);
        AppendNothing(found);
        pos := pos + 1;
      }
    }
  }

  /** The characters of a wide string from `pos` on, and where they end. */
  method WideRun(data: seq<byte>, pos: int, ghost minLength: int) returns (end: int, chars: int)
    requires pos >= 0 && CharAt(data, pos, true)
    ensures pos + 2 <= end <= |data| && chars == Chars(data, pos, true)
    ensures !CharAt(data, end, true) && !CharAt(data, end - 1, true)
    ensures WideReports(data, minLength, pos, end)
  {
    end, chars := pos + 2, 1;
    WideStart(data, pos, minLength);
    while CharAt(data, end, true)
      invariant WideSoFar(data, pos, end, chars, minLength)
      decreases |data| - end
    {
      WideNext(data, pos, end, chars, minLength);
      end, chars := end + 2, chars + 1;
    }
  }

  lemma {:induction false} WideStart(data: seq<byte>, pos: int, minLength: int)
    requires pos >= 0 && CharAt(data, pos, true)
    ensures WideSoFar(data, pos, pos + 2, 1, minLength)
  {
    WideCharMore(minLength, data, pos);
  }

  lemma {:induction false} WideNext(data: seq<byte>, pos: int, end: int, chars: int, minLength: int)
    requires WideSoFar(data, pos, end, chars, minLength) && CharAt(data, end, true)
    ensures WideSoFar(data, pos, end + 2, chars + 1, minLength)
  {
    WideCharContinues(minLength, data, end);
  }

  /** `chars` wide characters have been taken from `pos` on, up to `end`. */
  ghost predicate WideSoFar(data: seq<byte>, pos: int, end: int, chars: int, minLength: int) {
    && 0 <= pos && pos + 2 <= end <= |data| && CharAt(data, end - 2, true) && !CharAt(data, end - 1, true)
    && Chars(data, pos, true) == chars + Chars(data, end, true)
    && WideReports(data, minLength, pos, end)
  }

  /** The positions between report the string at `pos` and nothing else. */
  ghost predicate WideReports(data: seq<byte>, minLength: int, pos: int, end: int)
    requires 0 <= pos && 0 <= end
  {
    MatchesBelow(OneEncoding(true, minLength), data, end)
    == MatchesBelow(OneEncoding(true, minLength), data, pos) + Tagged(TextAt(true, minLength, data, pos), pos)
  }

  // ---- both encodings, sorted -------------------------------------------------------------------

  datatype Encoding = Ascii | Utf16le

  function WantedOf(encodings: seq<Encoding>, minLength: int): Wanted {
    Wanted(Ascii in encodings, Utf16le in encodings, minLength)
  }

  /** The sort key of a match: offset first, then the encoding's name. */
  predicate ReportLe(x: Report<Text>, y: Report<Text>) {
    x.offset < y.offset || (x.offset == y.offset && (!x.found.wide || y.found.wide))
  }

  lemma {:induction false} BothMore(w: Wanted, data: seq<byte>, p: nat)
    ensures MatchesBelow(StringsOf(w), data, p + 1)
         == MatchesBelow(StringsOf(w), data, p)
            + ListedAt(w.ascii, false, w.minLength, data, p) + ListedAt(w.utf16, true, w.minLength, data, p)
  {
    var ascii := if w.ascii then TextAt(false, w.minLength, data, p) else [];
    var wide := if w.utf16 then TextAt(true, w.minLength, data, p) else [];
    assert Tagged(ascii + wide, p) == Tagged(ascii, p) + Tagged(wide, p);
  }

  lemma {:induction false} Regroup<T>(x: seq<T>, a: seq<T>, b: seq<T>, xa: seq<T>, xb: seq<T>)
    requires multiset(x) == multiset(xa) + multiset(xb)
    ensures multiset(x + a + b) == multiset(xa + a) + multiset(xb + b)
  {
  }

  /** The reports of one encoding below `n`, nothing when it is not wanted. */
  ghost function Listed(wanted: bool, wide: bool, minLength: int, data: seq<byte>, n: nat): seq<Report<Text>> {
    if wanted then MatchesBelow(OneEncoding(wide, minLength), data, n) else []
  }

  ghost function ListedAt(wanted: bool, wide: bool, minLength: int, data: seq<byte>, p: int): seq<Report<Text>> {
    if wanted then Tagged(TextAt(wide, minLength, data, p), p) else []
  }

  lemma {:induction false} ListedMore(wanted: bool, wide: bool, minLength: int, data: seq<byte>, p: nat)
    ensures Listed(wanted, wide, minLength, data, p + 1)
         == Listed(wanted, wide, minLength, data, p) + ListedAt(wanted, wide, minLength, data, p)
  {
    OnePositionMore(wide, minLength, data, p);
  }

  lemma {:induction false} BothShares(w: Wanted, data: seq<byte>, n: nat)
    ensures multiset(MatchesBelow(StringsOf(w), data, n))
         == multiset(Listed(w.ascii, false, w.minLength, data, n))
           + multiset(Listed(w.utf16, true, w.minLength, data, n))
  {
    if n == 0 {
      assert Listed(w.ascii, false, w.minLength, data, n) == [];
      assert Listed(w.utf16, true, w.minLength, data, n) == [];
    } else {
      var p := n - 1;
      var a, b := ListedAt(w.ascii, false, w.minLength, data, p), ListedAt(w.utf16, true, w.minLength, data, p);
      var xa, xb := Listed(w.ascii, false, w.minLength, data, p), Listed(w.utf16, true, w.minLength, data, p);
      BothShares(w, data, p);
      BothMore(w, data, p);
      Regroup(MatchesBelow(StringsOf(w), data, p), a, b, xa, xb);
      ListedMore(w.ascii, false, w.minLength, data, p);
      ListedMore(w.utf16, true, w.minLength, data, p);
      assert Listed(w.ascii, false, w.minLength, data, n) == xa + a;
      assert Listed(w.utf16, true, w.minLength, data, n) == xb + b;
    }
  }

  ghost predicate Found(w: Wanted, data: seq<byte>, r: Report<Text>) {
    TextAt(r.found.wide, w.minLength, data, r.offset) == [r.found]
  }

  /** Reports below position `n`, in order, each of them a string of the buffer. */
  ghost predicate InOrder(w: Wanted, data: seq<byte>, n: int, x: seq<Report<Text>>) {
    && SortedBy(x, ReportLe)
    && forall i :: 0 <= i < |x| ==> x[i].offset < n && Found(w, data, x[i])
  }

  ghost predicate Here(w: Wanted, data: seq<byte>, p: int, wide: bool, x: seq<Report<Text>>) {
    |x| <= 1 && forall i :: 0 <= i < |x| ==> x[i].offset == p && x[i].found.wide == wide && Found(w, data, x[i])
  }

  lemma {:induction false} InOrderMore(w: Wanted, data: seq<byte>, p: int,
                                       x: seq<Report<Text>>, a: seq<Report<Text>>, b: seq<Report<Text>>)
    requires InOrder(w, data, p, x) && Here(w, data, p, false, a) && Here(w, data, p, true, b)
    ensures InOrder(w, data, p + 1, x + a + b)
  {
  }

  lemma {:induction false} ListedHere(wanted: bool, wide: bool, w: Wanted, data: seq<byte>, p: int)
    ensures Here(w, data, p, wide, ListedAt(wanted, wide, w.minLength, data, p))
  {
  }

  /** Reports come by position, at most one an encoding, ASCII first. */
  lemma {:induction false} BothSorted(w: Wanted, data: seq<byte>, n: nat)
    ensures InOrder(w, data, n, MatchesBelow(StringsOf(w), data, n))
  {
    if n > 0 {
      var p := n - 1;
      var a, b := ListedAt(w.ascii, false, w.minLength, data, p), ListedAt(w.utf16, true, w.minLength, data, p);
      BothSorted(w, data, p);
      ListedHere(w.ascii, false, w, data, p);
      ListedHere(w.utf16, true, w, data, p);
      InOrderMore(w, data, p, MatchesBelow(StringsOf(w), data, p), a, b);
      BothMore(w, data, p);
    }
  }

  /** Every match of the wanted encodings, sorted by offset and encoding: the strings of the
      buffer, by position. */
  method Matches(data: seq<byte>, encodings: seq<Encoding>, minLength: int) returns (found: seq<Report<Text>>)
    requires minLength >= 1
    requires forall i, j :: 0 <= i < j < |encodings| ==> encodings[i] != encodings[j]
    ensures found == WholeReports(StringsOf(WantedOf(encodings, minLength)), data)
  {
    ghost var w := WantedOf(encodings, minLength);
    found := [];
    for i := 0 to |encodings|
      invariant multiset(found) == multiset(Listed(Ascii in encodings[..i], false, minLength, data, |data|))
                                   + multiset(Listed(Utf16le in encodings[..i], true, minLength, data, |data|))
    {
      var more;
      if encodings[i] == Utf16le {
        more := ExtractUtf16(data, minLength);
      } else {
        more := ExtractAscii(data, minLength);
      }
      TakeNext(encodings, i);
      found := found + more;
    }
    TakeAll(encodings);
    BothShares(w, data, |data|);
    BothSorted(w, data, |data|);
    SortIsPositional(found, w, data);
    found := Sort(found, ReportLe);
  }

  lemma {:induction false} SortIsPositional(found: seq<Report<Text>>, w: Wanted, data: seq<byte>)
    requires multiset(found) == multiset(MatchesBelow(StringsOf(w), data, |data|))
    ensures Sort(found, ReportLe) == MatchesBelow(StringsOf(w), data, |data|)
  {
    var both := MatchesBelow(StringsOf(w), data, |data|);
    BothSorted(w, data, |data|);
    SortSorts(found, ReportLe);
    SameElements(found, both);
    forall u, v | u in found && v in found && ReportLe(u, v) && ReportLe(v, u) ensures u == v {
      assert u in both && v in both;
      assert Found(w, data, u) && Found(w, data, v);
    }
    SortedUnique(Sort(found, ReportLe), both, ReportLe);
  }
}
