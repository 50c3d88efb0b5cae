/** Reading /proc/pid/maps and /proc/pid/cmdline (src/teleclient/myprocfs.rs). */
module ProcMaps {
  import opened Words

  /** One mapped region of a process, and the bytes captured from it, if any. */
  datatype MemoryMap = MemoryMap(
    base: Word,
    size: Word,
    name: string,
    readable: bool,
    writable: bool,
    executable: bool,
    isPrivate: bool,
    data: seq<Byte>
  )

  /** The first address after a region. */
  function End(m: MemoryMap): nat {
    m.base + m.size
  }

  // ----- splitting and trimming text -----

  /** The characters with the Unicode property White_Space. */
  predicate IsWhitespace(c: char) {
    var u := c as int;
    || 0x9 <= u <= 0xD || u == 0x20 || u == 0x85 || u == 0xA0 || u == 0x1680
    || 0x2000 <= u <= 0x200A || u == 0x2028 || u == 0x2029 || u == 0x202F || u == 0x205F || u == 0x3000
  }

  predicate IsDash(c: char) {
    c == '-'
  }

  ghost predicate FreeOf(s: string, isSep: char -> bool) {
    forall i | 0 <= i < |s| :: !isSep(s[i])
  }

  function FirstSep(s: string, isSep: char -> bool): (k: nat)
    ensures k <= |s| && FreeOf(s[..k], isSep)
    ensures k < |s| ==> isSep(s[k])
  {
    if s == "" || isSep(s[0]) then 0
    else
      var k := FirstSep(s[1..], isSep);
      assert s[..k + 1] == [s[0]] + s[1..][..k];
      k + 1
  }

  /** At most n pieces: every separator up to the (n-1)-th ends one, the rest is the last piece. */
  function SplitN(s: string, n: nat, isSep: char -> bool): (parts: seq<string>)
    requires n >= 1
    ensures 1 <= |parts| <= n
  {
    var k := FirstSep(s, isSep);
    if n == 1 || k == |s| then [s] else [s[..k]] + SplitN(s[k + 1..], n - 1, isSep)
  }

  lemma {:induction false} FirstSepIs(s: string, k: nat, isSep: char -> bool)
    requires k < |s| && FreeOf(s[..k], isSep) && isSep(s[k])
    ensures FirstSep(s, isSep) == k
  {
    if k == 0 {
    } else {
      assert s[..k][0] == s[0] && s[1..][..k - 1] == s[..k][1..];
      FirstSepIs(s[1..], k - 1, isSep);
    }
  }

  lemma SplitNStep(field: string, sep: char, rest: string, n: nat, isSep: char -> bool)
    requires n >= 2 && FreeOf(field, isSep) && isSep(sep)
    ensures SplitN(field + [sep] + rest, n, isSep) == [field] + SplitN(rest, n - 1, isSep)
  {
    var s := field + [sep] + rest;
    assert s[..|field|] == field && s[|field| + 1..] == rest;
    FirstSepIs(s, |field|, isSep);
  }

  /** Fields in a row, each followed by the separator, and then the rest. */
  function JoinFields(fields: seq<string>, sep: char, rest: string): string {
    if fields == [] then rest else fields[0] + [sep] + JoinFields(fields[1..], sep, rest)
  }

  lemma {:induction false} SplitNOfJoin(fields: seq<string>, sep: char, rest: string, isSep: char -> bool)
    requires isSep(sep) && forall f | f in fields :: FreeOf(f, isSep)
    ensures SplitN(JoinFields(fields, sep, rest), |fields| + 1, isSep) == fields + [rest]
  {
    if fields == [] {
    } else {
      SplitNOfJoin(fields[1..], sep, rest, isSep);
      SplitNStep(fields[0], sep, JoinFields(fields[1..], sep, rest), |fields| + 1, isSep);
    }
  }

  function Separators(s: string, isSep: char -> bool): nat {
    if s == "" then 0 else (if isSep(s[0]) then 1 else 0) + Separators(s[1..], isSep)
  }

  lemma {:induction false} NoSeparator(s: string, isSep: char -> bool)
    requires FreeOf(s, isSep)
    ensures FirstSep(s, isSep) == |s| && Separators(s, isSep) == 0
  {
    if s == "" {
    } else {
      assert forall i | 0 <= i < |s| - 1 :: s[1..][i] == s[i + 1];
      NoSeparator(s[1..], isSep);
    }
  }

  lemma {:induction false} SeparatorsAfter(s: string, k: nat, isSep: char -> bool)
    requires k < |s| && FreeOf(s[..k], isSep) && isSep(s[k])
    ensures Separators(s, isSep) == 1 + Separators(s[k + 1..], isSep)
  {
    if k == 0 {
    } else {
      assert s[..k][0] == s[0] && s[1..][..k - 1] == s[..k][1..] && s[1..][k..] == s[k + 1..];
      SeparatorsAfter(s[1..], k - 1, isSep);
    }
  }

  /** There is one piece more than there are separators, up to n. */
  lemma {:induction false} PieceCount(s: string, n: nat, isSep: char -> bool)
    requires n >= 1
    ensures |SplitN(s, n, isSep)| == if Separators(s, isSep) + 1 < n then Separators(s, isSep) + 1 else n
    decreases n
  {
    var k := FirstSep(s, isSep);
    if k == |s| {
      assert s[..k] == s;
      NoSeparator(s, isSep);
    } else if n == 1 {
    } else {
      SeparatorsAfter(s, k, isSep);
      PieceCount(s[k + 1..], n - 1, isSep);
    }
  }

  function TrimStart(s: string): string {
    if s != "" && IsWhitespace(s[0]) then TrimStart(s[1..]) else s
  }

  function TrimEnd(s: string): string {
    if s != "" && IsWhitespace(s[|s| - 1]) then TrimEnd(s[..|s| - 1]) else s
  }

  function Trim(s: string): string {
    TrimEnd(TrimStart(s))
  }

  ghost predicate IsTrimmed(s: string) {
    s != "" ==> !IsWhitespace(s[0]) && !IsWhitespace(s[|s| - 1])
  }

  lemma {:induction false} TrimEndRemoves(name: string, after: string)
    requires forall c | c in after :: IsWhitespace(c)
    requires name == "" || !IsWhitespace(name[|name| - 1])
    ensures TrimEnd(name + after) == name
    decreases |after|
  {
    if after == "" {
      assert name + after == name;
    } else {
      var front := after[..|after| - 1];
      assert (name + after)[..|name + after| - 1] == name + front;
      assert (name + after)[|name + after| - 1] == after[|after| - 1];
      TrimEndRemoves(name, front);
    }
  }

  lemma {:induction false} TrimStartOfSpace(s: string)
    requires forall c | c in s :: IsWhitespace(c)
    ensures TrimStart(s) == ""
  {
    if s == "" {
    } else {
      TrimStartOfSpace(s[1..]);
    }
  }

  /** White space before and after a name is removed, and nothing else. */
  lemma {:induction false} TrimRemovesPadding(pad: string, name: string, after: string)
    requires forall c | c in pad || c in after :: IsWhitespace(c)
    requires IsTrimmed(name)
    ensures Trim(pad + name + after) == name
  {
    if pad == "" {
      assert pad + name + after == name + after;
      if name == "" {
        assert name + after == after;
        TrimStartOfSpace(after);
      } else {
        assert (name + after)[0] == name[0];
        TrimEndRemoves(name, after);
      }
    } else {
      var s := pad + name + after;
      assert s[0] == pad[0] && s[1..] == pad[1..] + name + after;
      TrimRemovesPadding(pad[1..], name, after);
    }
  }

  // ----- hexadecimal numbers -----

  function HexDigit(d: nat): (c: char)
    requires d < 16
    ensures IsHexDigit(c) && DigitValue(c) == d
  {
    if d < 10 then '0' + d as char else 'a' + (d - 10) as char
  }

  predicate IsHexDigit(c: char) {
    '0' <= c <= '9' || 'a' <= c <= 'f' || 'A' <= c <= 'F'
  }

  function DigitValue(c: char): (d: nat)
    requires IsHexDigit(c)
    ensures d < 16
  {
    if '0' <= c <= '9' then c as int - '0' as int
    else if 'a' <= c <= 'f' then c as int - 'a' as int + 10
    else c as int - 'A' as int + 10
  }

  predicate AllHex(s: string) {
    forall i | 0 <= i < |s| :: IsHexDigit(s[i])
  }

  function HexValue(s: string): nat
    requires AllHex(s)
  {
    if s == "" then 0 else 16 * HexValue(s[..|s| - 1]) + DigitValue(s[|s| - 1])
  }

  /** The digits, of either case, and their values. */
  lemma DigitsAre(k: nat)
    requires k < 16
    ensures DigitValue("0123456789abcdef"[k]) == k && DigitValue("0123456789ABCDEF"[k]) == k
    ensures HexDigit(k) == "0123456789abcdef"[k] && HexValue("") == 0
  {
  }

  /** One more digit at the end. */
  lemma HexStep(s: string, c: char)
    requires AllHex(s) && IsHexDigit(c)
    ensures AllHex(s + [c]) && HexValue(s + [c]) == 16 * HexValue(s) + DigitValue(c)
  {
    assert (s + [c])[..|s|] == s;
  }

  /** Reading a number in base 16: an optional plus sign, at least one digit, and no overflow. */
  function ParseHex(s: string): Result<Word> {
    var digits := if |s| > 1 && s[0] == '+' then s[1..] else s;
    if digits == "" || !AllHex(digits) || HexValue(digits) >= WORD_LIMIT then Err(BadNumber)
    else Ok(HexValue(digits))
  }

  /** A number is read exactly from one or more digits, with or without a plus sign before them, whose value
      fits in 64 bits. */
  lemma ParseHexIff(s: string, w: Word)
    ensures ParseHex(s) == Ok(w) <==>
              exists digits ::
                (s == digits || s == "+" + digits) && digits != "" && AllHex(digits) && HexValue(digits) == w
    ensures ParseHex(s).Err? ==> ParseHex(s) == Err(BadNumber)
  {
    hide HexValue;
    if ParseHex(s) == Ok(w) {
      var digits := if |s| > 1 && s[0] == '+' then s[1..] else s;
      assert s == digits || s == "+" + digits;
    }
    if digits :| (s == digits || s == "+" + digits) && digits != "" && AllHex(digits) && HexValue(digits) == w {
      assert IsHexDigit(digits[0]);
      if s == "+" + digits {
        assert s[1..] == digits;
      }
    }
  }

  /** The hexadecimal text of n, zero-padded to at least the given width. */
  function HexText(n: nat, width: nat): (s: string)
    ensures |s| >= width && AllHex(s)
    decreases n, width
  {
    if n == 0 && width == 0 then ""
    else HexText(n / 16, if width > 0 then width - 1 else 0) + [HexDigit(n % 16)]
  }

  lemma {:induction false} HexTextValue(n: nat, width: nat)
    ensures HexValue(HexText(n, width)) == n
    decreases n, width
  {
    if n == 0 && width == 0 {
    } else {
      var w := if width > 0 then width - 1 else 0;
      HexTextValue(n / 16, w);
      var s := HexText(n, width);
      assert s[..|s| - 1] == HexText(n / 16, w) && s[|s| - 1] == HexDigit(n % 16);
    }
  }

  /** Reading undoes printing, whatever the padding. */
  lemma ParseHexOfText(n: Word, width: nat)
    requires width >= 1
    ensures ParseHex(HexText(n, width)) == Ok(n)
  {
    HexTextValue(n, width);
    var s := HexText(n, width);
    assert IsHexDigit(s[0]);
  }

  // ----- one line of /proc/pid/maps -----

  /** "start-end" as base address and size. A missing dash or a negative size panics. */
  function ParseByteRange(byteRange: string): Result<(Word, Word)> {
    var parts := SplitN(byteRange, 2, IsDash);
    var start :- ParseHex(parts[0]);
    if |parts| < 2 then Err(Panic)
    else
      var end :- ParseHex(parts[1]);
      if end < start then Err(Panic) else Ok((start, end - start))
  }

  function ParsePermissions(permissions: string): Result<(bool, bool, bool, bool)> {
    if |permissions| != 4 then Err(BadPermissions)
    else Ok((permissions[0] == 'r', permissions[1] == 'w', permissions[2] == 'x', permissions[3] == 'p'))
  }

  /** A line with fewer than five blanks in it panics. */
  lemma TooFewFields(line: string)
    requires Separators(line, IsWhitespace) < 5
    ensures ParseMapLine(line) == Err(Panic)
  {
    PieceCount(line, 6, IsWhitespace);
    hide SplitN, Separators, IsWhitespace;
  }

  /** Each letter says one thing, wherever the others stand. */
  lemma PermissionLetters()
    ensures ParsePermissions("r---") == Ok((true, false, false, false))
    ensures ParsePermissions("-w--") == Ok((false, true, false, false))
    ensures ParsePermissions("--x-") == Ok((false, false, true, false))
    ensures ParsePermissions("---p") == Ok((false, false, false, true))
    ensures ParsePermissions("---s") == Ok((false, false, false, false))
  {
  }

  function ParseMapLine(line: string): Result<MemoryMap> {
    ParseFields(SplitN(line, 6, IsWhitespace))
  }

  function ParseFields(parts: seq<string>): Result<MemoryMap> {
    if |parts| < 6 then Err(Panic)
    else
      var range :- ParseByteRange(parts[0]);
      var perms :- ParsePermissions(parts[1]);
      Ok(MemoryMap(range.0, range.1, Trim(parts[5]), perms.0, perms.1, perms.2, perms.3, []))
  }

  /** The fields of a line that the parser skips, how the kernel pads the others, and what white space follows. */
  datatype LineLayout =
    LineLayout(width: nat, offset: string, device: string, inode: string, pad: string, after: string)

  ghost predicate ValidLayout(l: LineLayout) {
    && l.width >= 1
    && FreeOf(l.offset, IsWhitespace) && FreeOf(l.device, IsWhitespace) && FreeOf(l.inode, IsWhitespace)
    && (forall c | c in l.pad || c in l.after :: IsWhitespace(c))
  }

  /** A region as the kernel can list it: it ends inside the address space, and nothing is captured yet. */
  ghost predicate Listable(m: MemoryMap) {
    End(m) < WORD_LIMIT && IsTrimmed(m.name) && m.data == []
  }

  function PrintPermissions(m: MemoryMap): string {
    [if m.readable then 'r' else '-', if m.writable then 'w' else '-',
     if m.executable then 'x' else '-', if m.isPrivate then 'p' else 's']
  }

  function PrintFields(from: string, to: string, m: MemoryMap, l: LineLayout): string {
    JoinFields([from + ['-'] + to, PrintPermissions(m), l.offset, l.device, l.inode], ' ', l.pad + m.name + l.after)
  }

  /** The layout of one line of /proc/pid/maps, after proc(5). */
  function PrintMapLine(m: MemoryMap, l: LineLayout): string {
    PrintFields(HexText(m.base, l.width), HexText(End(m), l.width), m, l)
  }

  lemma HexHasNoSeparators(s: string)
    requires AllHex(s)
    ensures FreeOf(s, IsWhitespace) && FreeOf(s, IsDash)
  {
    forall i | 0 <= i < |s|
      ensures !IsWhitespace(s[i]) && !IsDash(s[i])
    {
      assert IsHexDigit(s[i]);
    }
  }

  /** Start and end are read; an end before the start, or none, panics. */
  lemma ParseByteRangeOfTexts(from: string, to: string, start: Word, end: Word)
    requires AllHex(from) && ParseHex(from) == Ok(start)
    requires AllHex(to) && ParseHex(to) == Ok(end)
    ensures ParseByteRange(from + ['-'] + to) == if end < start then Err(Panic) else Ok((start, end - start))
  {
    hide ParseHex, IsHexDigit;
    HexHasNoSeparators(from);
    SplitNStep(from, '-', to, 2, IsDash);
    assert SplitN(from + ['-'] + to, 2, IsDash) == [from, to];
  }

  lemma NoDashNoRange(text: string, start: Word)
    requires AllHex(text) && ParseHex(text) == Ok(start)
    ensures ParseByteRange(text) == Err(Panic)
  {
    hide ParseHex, IsHexDigit;
    HexHasNoSeparators(text);
    NoSeparator(text, IsDash);
  }

  lemma RangeHasNoSpace(from: string, to: string)
    requires AllHex(from) && AllHex(to)
    ensures FreeOf(from + ['-'] + to, IsWhitespace)
  {
    HexHasNoSeparators(from);
    HexHasNoSeparators(to);
  }

  lemma PermissionsHaveNoSpace(m: MemoryMap)
    ensures FreeOf(PrintPermissions(m), IsWhitespace)
  {
  }

  lemma ParseFieldsOfPrint(m: MemoryMap, l: LineLayout, range: string, perms: string)
    requires ParseByteRange(range) == Ok((m.base, m.size))
    requires perms == PrintPermissions(m)
    requires Listable(m) && ValidLayout(l)
    ensures ParseFields([range, perms, l.offset, l.device, l.inode] + [l.pad + m.name + l.after]) == Ok(m)
  {
    hide ParseByteRange, IsWhitespace, Trim;
    TrimRemovesPadding(l.pad, m.name, l.after);
  }

  lemma ParseMapLineOfFields(from: string, to: string, m: MemoryMap, l: LineLayout)
    requires AllHex(from) && ParseHex(from) == Ok(m.base)
    requires AllHex(to) && ParseHex(to) == Ok(End(m))
    requires Listable(m) && ValidLayout(l)
    ensures ParseMapLine(PrintFields(from, to, m, l)) == Ok(m)
  {
    hide ParseHex, AllHex, HexValue, ParseByteRange, PrintPermissions, IsTrimmed, SplitN, ParseFields;
    var range, perms := from + ['-'] + to, PrintPermissions(m);
    ParseByteRangeOfTexts(from, to, m.base, End(m));
    RangeHasNoSpace(from, to);
    PermissionsHaveNoSpace(m);
    var fields := [range, perms, l.offset, l.device, l.inode];
    SplitNOfJoin(fields, ' ', l.pad + m.name + l.after, IsWhitespace);
    ParseFieldsOfPrint(m, l, range, perms);
  }

  /** Parsing a line gives back the region it was printed from. */
  lemma ParseMapLineOfPrint(m: MemoryMap, l: LineLayout)
    requires Listable(m) && ValidLayout(l)
    ensures ParseMapLine(PrintMapLine(m, l)) == Ok(m)
  {
    ParseHexOfText(m.base, l.width);
    ParseHexOfText(End(m), l.width);
    ParseMapLineOfFields(HexText(m.base, l.width), HexText(End(m), l.width), m, l);
  }

  lemma {:induction false} JoinMore(fields: seq<string>, sep: char, rest: string, more: string)
    ensures JoinFields(fields, sep, rest + more) == JoinFields(fields, sep, rest) + more
  {
    if fields == [] {
    } else {
      JoinMore(fields[1..], sep, rest, more);
      var tail := JoinFields(fields[1..], sep, rest);
      assert fields[0] + [sep] + (tail + more) == fields[0] + [sep] + tail + more;
    }
  }

  /** A line with its newline, or with other blanks after it, is read as the line without them. */
  lemma BlanksIgnored(m: MemoryMap, l: LineLayout, blanks: string)
    requires Listable(m) && ValidLayout(l)
    requires forall c | c in blanks :: c == ' ' || c == '\t' || c == '\r' || c == '\n'
    ensures ParseMapLine(PrintMapLine(m, l) + blanks) == Ok(m)
  {
    var longer := l.(after := l.after + blanks);
    ParseMapLineOfPrint(m, longer);
    var from, to := HexText(m.base, l.width), HexText(End(m), l.width);
    var rest := l.pad + m.name + l.after;
    assert l.pad + m.name + (l.after + blanks) == rest + blanks;
    JoinMore([from + ['-'] + to, PrintPermissions(m), l.offset, l.device, l.inode], ' ', rest, blanks);
    hide JoinFields, ParseMapLine, HexText, PrintPermissions;
  }

  lemma JoinOne(field: string, sep: char, fields: seq<string>, rest: string)
    ensures JoinFields([field] + fields, sep, rest) == field + [sep] + JoinFields(fields, sep, rest)
  {
    assert ([field] + fields)[1..] == fields;
  }

  /** The text of a line, from its last field to its first. */
  lemma LineText(from: string, to: string, m: MemoryMap, l: LineLayout)
    ensures var name := l.pad + m.name + l.after;
            var inode := l.inode + " " + name;
            var device := l.device + " " + inode;
            var offset := l.offset + " " + device;
            var perms := PrintPermissions(m) + " " + offset;
            PrintFields(from, to, m, l) == from + "-" + to + " " + perms
  {
    hide PrintPermissions;
    var rest, perms := l.pad + m.name + l.after, PrintPermissions(m);
    assert JoinFields([], ' ', rest) == rest;
    JoinOne(l.inode, ' ', [], rest);
    JoinOne(l.device, ' ', [l.inode], rest);
    JoinOne(l.offset, ' ', [l.device, l.inode], rest);
    JoinOne(perms, ' ', [l.offset, l.device, l.inode], rest);
    JoinOne(from + ['-'] + to, ' ', [perms, l.offset, l.device, l.inode], rest);
    hide JoinFields;
    assert [l.inode] + [] == [l.inode];
    assert [l.device] + [l.inode] == [l.device, l.inode];
    assert [l.offset] + [l.device, l.inode] == [l.offset, l.device, l.inode];
    assert [perms] + [l.offset, l.device, l.inode] == [perms, l.offset, l.device, l.inode];
    assert [from + ['-'] + to] + [perms, l.offset, l.device, l.inode]
           == [from + ['-'] + to, perms, l.offset, l.device, l.inode];
  }

  /** Parses line after line and stops at the first failure. */
  function Collect(lines: seq<string>, parse: string -> Result<MemoryMap>): Result<seq<MemoryMap>> {
    if lines == [] then Ok([])
    else
      match parse(lines[0])
      case Err(fault) => Err(fault)
      case Ok(first) => Prepend([first], Collect(lines[1..], parse))
  }

  lemma PrependNothing(rest: Result<seq<MemoryMap>>)
    ensures Prepend([], rest) == rest
  {
    assert rest.Ok? ==> [] + rest.value == rest.value;
  }

  function Prepend(maps: seq<MemoryMap>, rest: Result<seq<MemoryMap>>): Result<seq<MemoryMap>> {
    match rest
    case Err(fault) => Err(fault)
    case Ok(tail) => Ok(maps + tail)
  }

  lemma {:induction false} CollectAll(lines: seq<string>, maps: seq<MemoryMap>, parse: string -> Result<MemoryMap>)
    requires |lines| == |maps|
    requires forall i | 0 <= i < |lines| :: parse(lines[i]) == Ok(maps[i])
    ensures Collect(lines, parse) == Ok(maps)
  {
    if lines == [] {
    } else {
      CollectAll(lines[1..], maps[1..], parse);
      assert maps == [maps[0]] + maps[1..];
    }
  }

  /** The first line that cannot be parsed fails the whole file, whatever comes after it. */
  lemma {:induction false} FirstFailureCounts(lines: seq<string>, k: nat, parse: string -> Result<MemoryMap>)
    requires k < |lines| && parse(lines[k]).Err?
    requires forall i | 0 <= i < k :: parse(lines[i]).Ok?
    ensures Collect(lines, parse) == Err(parse(lines[k]).fault)
  {
    if k == 0 {
    } else {
      FirstFailureCounts(lines[1..], k - 1, parse);
    }
  }

  /** The whole file: the parsed list is the list that was printed, in order. */
  lemma ReadOfPrint(lines: seq<string>, maps: seq<MemoryMap>, layouts: seq<LineLayout>)
    requires |maps| == |layouts| == |lines|
    requires forall i | 0 <= i < |maps| ::
               Listable(maps[i]) && ValidLayout(layouts[i]) && lines[i] == PrintMapLine(maps[i], layouts[i])
    ensures Collect(lines, ParseMapLine) == Ok(maps)
  {
    forall i | 0 <= i < |lines|
      ensures ParseMapLine(lines[i]) == Ok(maps[i])
    {
      ParseMapLineOfPrint(maps[i], layouts[i]);
    }
    CollectAll(lines, maps, ParseMapLine);
  }

  /** read_memory_maps, on the lines of the file and the line parser. */
  method ReadLines(lines: seq<string>, parse: string -> Result<MemoryMap>) returns (result: Result<seq<MemoryMap>>)
    ensures result == Collect(lines, parse)
  {
    var maps: seq<MemoryMap> := [];
    assert lines[0..] == lines;
    PrependNothing(Collect(lines, parse));
    for i := 0 to |lines|
      invariant Collect(lines, parse) == Prepend(maps, Collect(lines[i..], parse))
    {
      assert lines[i..][1..] == lines[i + 1..];
      ghost var rest := Collect(lines[i + 1..], parse);
      match parse(lines[i]) {
        case Err(fault) => return Err(fault);
        case Ok(first) =>
          assert rest.Ok? ==> (maps + [first]) + rest.value == maps + ([first] + rest.value);
          maps := maps + [first];
      }
    }
    assert maps + [] == maps;
    return Ok(maps);
  }

  // ----- /proc/pid/cmdline -----

  /** An argument as the kernel stores it: its one NUL byte is its last. */
  ghost predicate IsArgument(arg: seq<Byte>) {
    |arg| > 0 && arg[|arg| - 1] == 0 && forall i | 0 <= i < |arg| - 1 :: arg[i] != 0
  }

  function Join(args: seq<seq<Byte>>): seq<Byte> {
    if args == [] then [] else args[0] + Join(args[1..])
  }

  function FirstNul(buf: seq<Byte>): (k: nat)
    ensures k <= |buf| && 0 !in buf[..k]
    ensures k < |buf| ==> buf[k] == 0
  {
    if buf == [] || buf[0] == 0 then 0
    else
      var k := FirstNul(buf[1..]);
      assert buf[..k + 1] == [buf[0]] + buf[1..][..k];
      k + 1
  }

  function SplitArguments(buf: seq<Byte>): seq<seq<Byte>> {
    var k := FirstNul(buf);
    if k == |buf| then [] else [buf[..k + 1]] + SplitArguments(buf[k + 1..])
  }

  /** What follows the last NUL. */
  function Remainder(buf: seq<Byte>): seq<Byte> {
    var k := FirstNul(buf);
    if k == |buf| then buf else Remainder(buf[k + 1..])
  }

  lemma {:induction false} FirstNulIs(buf: seq<Byte>, k: nat)
    requires k < |buf| && 0 !in buf[..k] && buf[k] == 0
    ensures FirstNul(buf) == k
  {
    if k == 0 {
    } else {
      assert buf[..k][0] == buf[0] && buf[1..][..k - 1] == buf[..k][1..];
      FirstNulIs(buf[1..], k - 1);
    }
  }

  lemma {:induction false} NoNul(buf: seq<Byte>)
    requires 0 !in buf
    ensures FirstNul(buf) == |buf|
    ensures SplitArguments(buf) == [] && Remainder(buf) == buf
  {
    if buf == [] {
    } else {
      NoNul(buf[1..]);
    }
  }

  /** Every argument ends in its only NUL. */
  lemma {:induction false} SplitGivesArguments(buf: seq<Byte>)
    ensures forall arg | arg in SplitArguments(buf) :: IsArgument(arg)
  {
    var k := FirstNul(buf);
    if k == |buf| {
    } else {
      var first := buf[..k + 1];
      assert first[..k] == buf[..k];
      SplitGivesArguments(buf[k + 1..]);
    }
  }

  lemma SplitStep(buf: seq<Byte>, k: nat)
    requires k == FirstNul(buf) < |buf|
    ensures SplitArguments(buf) == [buf[..k + 1]] + SplitArguments(buf[k + 1..])
    ensures Remainder(buf) == Remainder(buf[k + 1..])
  {
    hide FirstNul;
  }

  lemma JoinStep(first: seq<Byte>, rest: seq<seq<Byte>>, tail: seq<Byte>)
    ensures Join([first] + rest) + tail == first + (Join(rest) + tail)
  {
    assert ([first] + rest)[1..] == rest;
  }

  /** The arguments joined together, and then the NUL-free remainder, are the buffer. */
  lemma {:induction false} SplitThenJoin(buf: seq<Byte>)
    ensures Join(SplitArguments(buf)) + Remainder(buf) == buf
    ensures 0 !in Remainder(buf)
  {
    hide SplitArguments, Remainder, Join;
    var k := FirstNul(buf);
    if k < |buf| {
      var first, later := buf[..k + 1], buf[k + 1..];
      SplitThenJoin(later);
      SplitStep(buf, k);
      JoinStep(first, SplitArguments(later), Remainder(later));
      assert first + later == buf;
    } else {
      assert buf[..k] == buf;
      NoNul(buf);
      JoinNothing(buf);
    }
  }

  lemma JoinNothing(tail: seq<Byte>)
    ensures Join([]) + tail == tail
  {
  }

  /** Splitting the arguments joined together, before any text without NUL, gives them back. */
  lemma {:induction false} JoinThenSplit(args: seq<seq<Byte>>, tail: seq<Byte>)
    requires forall arg | arg in args :: IsArgument(arg)
    requires 0 !in tail
    ensures SplitArguments(Join(args) + tail) == args && Remainder(Join(args) + tail) == tail
  {
    if args == [] {
      assert Join(args) + tail == tail;
      NoNul(tail);
    } else {
      var first, later := args[0], Join(args[1..]) + tail;
      var k := |first| - 1;
      var buf := first + later;
      assert Join(args) + tail == buf;
      assert IsArgument(first) && buf[..k] == first[..k];
      FirstNulIs(buf, k);
      assert buf[..k + 1] == first && buf[k + 1..] == later;
      JoinThenSplit(args[1..], tail);
    }
  }

  lemma NextArgument(buf: seq<Byte>, start: nat, i: nat)
    requires start <= i < |buf| && buf[i] == 0
    requires forall k | start <= k < i :: buf[k] != 0
    ensures SplitArguments(buf[start..]) == [buf[start..i + 1]] + SplitArguments(buf[i + 1..])
  {
    var rest := buf[start..];
    assert rest[..i - start] == buf[start..i];
    FirstNulIs(rest, i - start);
    assert rest[..i - start + 1] == buf[start..i + 1] && rest[i - start + 1..] == buf[i + 1..];
  }

  /** get_command_line, on the bytes of the file. */
  method GetCommandLine(buf: seq<Byte>) returns (args: seq<seq<Byte>>)
    ensures args == SplitArguments(buf)
  {
    hide SplitArguments;
    var start, i := 0, 0;
    args := [];
    ghost var left := SplitArguments(buf);
    assert buf[0..] == buf;
    while i < |buf|
      invariant 0 <= start <= i <= |buf|
      invariant forall k | start <= k < i :: buf[k] != 0
      invariant left == SplitArguments(buf[start..])
      invariant args + left == SplitArguments(buf)
    {
      if buf[i] == 0 {
        NextArgument(buf, start, i);
        ghost var rest := SplitArguments(buf[i + 1..]);
        MoveFirst(args, buf[start..i + 1], rest);
        args := args + [buf[start..i + 1]];
        start := i + 1;
        left := rest;
      }
      i := i + 1;
    }
    NoNul(buf[start..]);
    assert args + [] == args;
  }

  lemma MoveFirst(args: seq<seq<Byte>>, arg: seq<Byte>, rest: seq<seq<Byte>>)
    ensures args + ([arg] + rest) == (args + [arg]) + rest
  {
  }
}
