/** Reading the node list of the network, src/nhtl-extoll/get_node_ids.cpp. */
module NodeIds {
  import opened Wrappers
  import opened Bits

  /** The two exceptions of the number conversion, and the missing FPGA. */
  datatype Error = NotANumber | OutOfRange | NoFpga

  /** First position of a character at or after `from`. */
  function Find(s: string, c: char, from: nat): (r: Option<nat>)
    requires from <= |s|
    ensures r.Some? ==> from <= r.value < |s| && s[r.value] == c
    decreases |s| - from
  {
    if from == |s| then None
    else if s[from] == c then Some(from)
    else Find(s, c, from + 1)
  }

  // -------------------------------------------------------- numbers in text

  predicate IsSpace(c: char) { c == ' ' || '\t' <= c <= '\r' }

  predicate IsDigit(c: char) { '0' <= c <= '9' }

  function Digit(c: char): nat {
    if IsDigit(c) then (c - '0') as nat else 0
  }

  function SkipSpaces(s: string): string {
    if s != [] && IsSpace(s[0]) then SkipSpaces(s[1..]) else s
  }

  /** The longest prefix of digits. */
  function Digits(s: string): string {
    if s != [] && IsDigit(s[0]) then [s[0]] + Digits(s[1..]) else []
  }

  function Value(d: string): nat {
    if d == [] then 0 else 10 * Value(d[..|d| - 1]) + Digit(d[|d| - 1])
  }

  /** `std::stoi`: leading white space, an optional sign, then digits; anything
      after them is ignored. */
  function StoI(s: string): Result<int, Error> {
    var t := SkipSpaces(s);
    var negative := t != [] && t[0] == '-';
    var d := Digits(if t != [] && (t[0] == '-' || t[0] == '+') then t[1..] else t);
    if d == [] then Failure(NotANumber)
    else
      var v: int := if negative then 0 - Value(d) else Value(d);
      if -0x8000_0000 <= v < 0x8000_0000 then Success(v) else Failure(OutOfRange)
  }

  /** Conversion to the unsigned 16-bit node id. */
  function NodeId(v: int): nat { v % TWO_16 }

  function Decimal(n: nat): string {
    if n < 10 then ['0' + n as char] else Decimal(n / 10) + ['0' + (n % 10) as char]
  }

  lemma {:induction false} DecimalValue(n: nat)
    ensures Decimal(n) != [] && (forall c :: c in Decimal(n) ==> IsDigit(c)) && Value(Decimal(n)) == n
  {
    if n >= 10 {
      DecimalValue(n / 10);
      assert Decimal(n)[..|Decimal(n)| - 1] == Decimal(n / 10);
    } else {
      assert Decimal(n)[..0] == [];
    }
  }

  lemma {:induction false} AllDigits(s: string)
    requires forall c :: c in s ==> IsDigit(c)
    ensures Digits(s) == s
  {
    if s != [] {
      AllDigits(s[1..]);
    }
  }

  lemma StoIOfDecimal(n: nat)
    requires n < TWO_16
    ensures StoI(Decimal(n)) == Success(n)
  {
    DecimalValue(n);
    AllDigits(Decimal(n));
    assert IsDigit(Decimal(n)[0]);
  }

  /** Digits are read in base ten; white space is the blank and the five control
      characters from 9 to 13. */
  lemma DecimalDigits(d: string, c: char)
    ensures Value([]) == 0
    ensures IsDigit(c) ==> Value(d + [c]) == 10 * Value(d) + (c as int - 48)
    ensures IsDigit(c) <==> 48 <= c as int <= 57
    ensures IsSpace(c) <==> c as int == 32 || 9 <= c as int <= 13
  {
    assert (d + [c])[..|d|] == d;
  }

  predicate Blank(s: string) { forall c :: c in s ==> IsSpace(c) }

  predicate AllDigit(s: string) { forall c :: c in s ==> IsDigit(c) }

  lemma {:induction false} SkipBlank(blank: string, s: string)
    requires Blank(blank) && (s != [] ==> !IsSpace(s[0]))
    ensures SkipSpaces(blank + s) == s
  {
    if blank == [] {
      assert blank + s == s;
    } else {
      assert blank[0] in blank;
      assert (blank + s)[1..] == blank[1..] + s;
      SkipBlank(blank[1..], s);
    }
  }

  lemma {:induction false} DigitsOf(d: string, rest: string)
    requires AllDigit(d) && (rest != [] ==> !IsDigit(rest[0]))
    ensures Digits(d + rest) == d
  {
    if d == [] {
      assert d + rest == rest;
    } else {
      assert d[0] in d;
      assert (d + rest)[1..] == d[1..] + rest;
      DigitsOf(d[1..], rest);
    }
  }

  /** The sign as it is written, if at all. */
  predicate IsSign(sign: string) { sign == "" || sign == "+" || sign == "-" }

  /** Whether a text starts with a sign. */
  predicate Signed(t: string) { t != [] && (t[0] == '-' || t[0] == '+') }

  lemma SignedParts(sign: string, d: string, rest: string)
    requires IsSign(sign) && AllDigit(d) && (rest != [] ==> !IsDigit(rest[0]))
    requires sign + d == [] && rest != [] ==> !IsSpace(rest[0]) && !Signed(rest)
    ensures var t := sign + d + rest;
            && (t != [] ==> !IsSpace(t[0]))
            && (t != [] && t[0] == '-' <==> sign == "-")
            && Digits(if Signed(t) then t[1..] else t) == d
  {
    var t := sign + d + rest;
    assert d != [] ==> d[0] in d;
    DigitsOf(d, rest);
    if sign == "" {
      assert t == d + rest;
      assert d == [] ==> t == rest;
    } else {
      assert t[0] == sign[0] && t[1..] == d + rest;
    }
  }

  /** The whole conversion: any white space, an optional sign and the digits of a
      number are read, and whatever follows is ignored; without a digit it is no
      number, and outside 32 bits it is out of range. */
  lemma StoIExact(blank: string, sign: string, d: string, rest: string)
    requires Blank(blank) && IsSign(sign) && AllDigit(d) && (rest != [] ==> !IsDigit(rest[0]))
    requires sign + d == [] && rest != [] ==> !IsSpace(rest[0]) && !Signed(rest)
    ensures var v: int := if sign == "-" then 0 - Value(d) else Value(d);
            StoI(blank + (sign + d + rest))
            == if d == [] then Failure(NotANumber)
               else if -2_147_483_648 <= v <= 2_147_483_647 then Success(v) else Failure(OutOfRange)
  {
    SignedParts(sign, d, rest);
    SkipBlank(blank, sign + d + rest);
  }

  /** Every text has that form. */
  lemma {:induction false} StoIForm(s: string) returns (blank: string, sign: string, d: string, rest: string)
    ensures s == blank + (sign + d + rest) && Blank(blank) && IsSign(sign) && AllDigit(d)
    ensures rest != [] ==> !IsDigit(rest[0])
    ensures sign + d == [] && rest != [] ==> !IsSpace(rest[0]) && !Signed(rest)
  {
    var t: string;
    blank, t := BlankPrefix(s);
    sign := if Signed(t) then [t[0]] else "";
    d, rest := DigitPrefix(t[|sign|..]);
    assert t == sign + t[|sign|..];
    assert t == sign + d + rest;
  }

  lemma {:induction false} BlankPrefix(s: string) returns (blank: string, rest: string)
    ensures s == blank + rest && Blank(blank) && (rest != [] ==> !IsSpace(rest[0]))
  {
    if s != [] && IsSpace(s[0]) {
      blank, rest := BlankPrefix(s[1..]);
      blank := [s[0]] + blank;
    } else {
      blank, rest := [], s;
    }
  }

  lemma {:induction false} DigitPrefix(s: string) returns (d: string, rest: string)
    ensures s == d + rest && AllDigit(d) && (rest != [] ==> !IsDigit(rest[0]))
  {
    if s != [] && IsDigit(s[0]) {
      d, rest := DigitPrefix(s[1..]);
      d := [s[0]] + d;
    } else {
      d, rest := [], s;
    }
  }

  // --------------------------------------------------------------- scanning

  /** The texts between each bracket and the next bar, from a position on. */
  function Pieces(s: string, from: nat): seq<string>
    requires from <= |s|
    decreases |s| - from
  {
    var open := Find(s, '[', from);
    if open.None? then []
    else
      var bar := Find(s, '|', open.value);
      if bar.None? then [] else [s[open.value + 1..bar.value]] + Pieces(s, bar.value)
  }

  /** All of them as node ids, or the first failure. */
  function ConvertAll(pieces: seq<string>): Result<seq<nat>, Error> {
    if pieces == [] then Success([])
    else
      match StoI(pieces[0])
      case Failure(e) => Failure(e)
      case Success(v) => Prepend(NodeId(v), ConvertAll(pieces[1..]))
  }

  function Prepend(id: nat, r: Result<seq<nat>, Error>): Result<seq<nat>, Error> {
    match r
    case Success(rest) => Success([id] + rest)
    case Failure(e) => Failure(e)
  }

  lemma {:induction false} ConvertNext(pieces: seq<string>, piece: string, rest: seq<string>)
    requires ConvertAll(pieces).Success?
    ensures match StoI(piece)
            case Failure(e) => ConvertAll(pieces + [piece] + rest) == Failure(e)
            case Success(v) => ConvertAll(pieces + [piece]) == Success(ConvertAll(pieces).value + [NodeId(v)])
  {
    if pieces == [] {
      assert pieces + [piece] + rest == [piece] + rest;
      assert pieces + [piece] == [piece];
      assert [piece][1..] == [];
      assert StoI(piece).Success? ==> [NodeId(StoI(piece).value)] + [] == [] + [NodeId(StoI(piece).value)];
    } else {
      assert (pieces + [piece] + rest)[1..] == pieces[1..] + [piece] + rest;
      assert (pieces + [piece])[1..] == pieces[1..] + [piece];
      ConvertNext(pieces[1..], piece, rest);
      var first, others := NodeId(StoI(pieces[0]).value), ConvertAll(pieces[1..]).value;
      assert StoI(piece).Success? ==>
          [first] + (others + [NodeId(StoI(piece).value)]) == [first] + others + [NodeId(StoI(piece).value)];
    }
  }

  /** The list of ids, piece by piece, each cut to 16 bits; or the failure of the
      first piece that fails. */
  lemma {:induction false} ConvertAllExact(pieces: seq<string>)
    ensures match ConvertAll(pieces)
            case Success(ids) =>
              |ids| == |pieces| && forall i :: 0 <= i < |ids| ==>
                StoI(pieces[i]).Success? && ids[i] == StoI(pieces[i]).value % 0x1_0000
            case Failure(e) =>
              exists i :: 0 <= i < |pieces| && StoI(pieces[i]) == Failure(e)
                          && forall j :: 0 <= j < i ==> StoI(pieces[j]).Success?
  {
    if pieces != [] && StoI(pieces[0]).Success? {
      var rest := pieces[1..];
      ConvertAllExact(rest);
      if ConvertAll(rest).Failure? {
        var i :| 0 <= i < |rest| && StoI(rest[i]) == Failure(ConvertAll(rest).error)
                 && forall j :: 0 <= j < i ==> StoI(rest[j]).Success?;
        assert StoI(pieces[i + 1]) == Failure(ConvertAll(pieces).error);
        forall j | 0 <= j < i + 1
          ensures StoI(pieces[j]).Success?
        {
          assert j > 0 ==> pieces[j] == rest[j - 1];
        }
      }
    }
  }

  /** One turn of the scan: `rest` are the pieces after the next one. */
  lemma ScanTurn(pieces: seq<string>, piece: string, rest: seq<string>, nodes: seq<nat>)
    requires ConvertAll(pieces) == Success(nodes)
    ensures match StoI(piece)
            case Failure(e) => ConvertAll(pieces + ([piece] + rest)) == Failure(e)
            case Success(v) => ConvertAll(pieces + [piece]) == Success(nodes + [NodeId(v)])
    ensures pieces + ([piece] + rest) == pieces + [piece] + rest
  {
    ConvertNext(pieces, piece, rest);
    assert pieces + ([piece] + rest) == pieces + [piece] + rest;
  }

  /** The scan loop over the concatenated output of the network tool. */
  method GetAllNodeIds(output: string) returns (r: Result<seq<nat>, Error>)
    ensures r == ConvertAll(Pieces(output, 0))
  {
    var nodes: seq<nat> := [];
    var pos := Find(output, '[', 0);
    ghost var from: nat, pieces: seq<string>, rest := 0, [], Pieces(output, 0);
    while pos.Some?
      invariant from <= |output| && pos == Find(output, '[', from)
      invariant Pieces(output, 0) == pieces + rest && rest == Pieces(output, from)
      invariant ConvertAll(pieces) == Success(nodes)
      decreases if pos.Some? then |output| - pos.value else -1
    {
      var sep := Find(output, '|', pos.value);
      if sep.None? {
        assert pieces + [] == pieces;
        return Success(nodes);
      }
      ScanTurn(pieces, output[pos.value + 1..sep.value], Pieces(output, sep.value), nodes);
      var number := StoI(output[pos.value + 1..sep.value]);
      if number.Failure? {
        return Failure(number.error);
      }
      nodes := nodes + [NodeId(number.value)];
      pieces := pieces + [output[pos.value + 1..sep.value]];
      pos := Find(output, '[', sep.value);
      from, rest := sep.value, Pieces(output, sep.value);
    }
    assert pieces + [] == pieces;
    return Success(nodes);
  }

  // ------------------------------------------------------------- round trip

  /** One line of the node list: the text in its brackets up to the bar, and
      whatever follows. */
  datatype Part = Part(text: string, filler: string)

  function Render(parts: seq<Part>, tail: string): string {
    if parts == [] then tail
    else ['['] + parts[0].text + ['|'] + parts[0].filler + Render(parts[1..], tail)
  }

  function Texts(parts: seq<Part>): seq<string> {
    if parts == [] then [] else [parts[0].text] + Texts(parts[1..])
  }

  /** A node id with what follows it in the list. */
  datatype Entry = Entry(id: nat, filler: string)

  function Parts(entries: seq<Entry>): seq<Part> {
    if entries == [] then [] else [Part(Decimal(entries[0].id), entries[0].filler)] + Parts(entries[1..])
  }

  function Ids(entries: seq<Entry>): seq<nat> {
    seq(|entries|, i requires 0 <= i < |entries| => entries[i].id)
  }

  /** An entry that was cut off before its bar, or nothing. */
  predicate Unterminated(tail: string) {
    tail == [] || (tail[0] == '[' && '|' !in tail)
  }

  lemma {:induction false} FindIs(s: string, c: char, from: nat, i: nat)
    requires from <= i < |s| && s[i] == c && c !in s[from..i]
    ensures Find(s, c, from) == Some(i)
    decreases i - from
  {
    if from < i {
      assert s[from] in s[from..i];
      assert s[from + 1..i] == s[from..i][1..];
      FindIs(s, c, from + 1, i);
    }
  }

  lemma {:induction false} FindNone(s: string, c: char, from: nat)
    requires from <= |s| && c !in s[from..]
    ensures Find(s, c, from) == None
    decreases |s| - from
  {
    if from < |s| {
      assert s[from] in s[from..];
      assert s[from + 1..] == s[from..][1..];
      FindNone(s, c, from + 1);
    }
  }

  lemma PieceAt(s: string, from: nat, open: nat, bar: nat)
    requires from <= |s| && Find(s, '[', from) == Some(open) && Find(s, '|', open) == Some(bar)
    ensures open < bar && Pieces(s, from) == [s[open + 1..bar]] + Pieces(s, bar)
  {
  }

  lemma TailHasNoPiece(s: string, from: nat, filler: string, tail: string)
    requires from <= |s| && s[from..] == filler + tail && '[' !in filler && Unterminated(tail)
    ensures Pieces(s, from) == []
  {
    if tail == [] {
      assert s[from..] == filler;
      FindNone(s, '[', from);
    } else {
      var open := from + |filler|;
      assert s[from..open] == s[from..][..|filler|] == filler;
      assert s[open] == s[from..][|filler|] == '[';
      FindIs(s, '[', from, open);
      assert s[open..] == s[from..][|filler|..] == tail;
      FindNone(s, '|', open);
    }
  }

  /** The parts of one complete entry in a text. */
  lemma EntrySlices(s: string, from: nat, filler: string, d: string, rest: string)
    requires from <= |s| && s[from..] == filler + (['['] + d + ['|'] + rest)
    ensures var open, bar := from + |filler|, from + |filler| + 1 + |d|;
            && bar < |s|
            && s[from..open] == filler && s[open] == '[' && s[open..bar] == ['['] + d
            && s[open + 1..bar] == d && s[bar] == '|' && s[bar..] == ['|'] + rest
  {
    var open, bar := from + |filler|, from + |filler| + 1 + |d|;
    var t := s[from..];
    assert |t| == |filler| + 2 + |d| + |rest|;
    assert s[from..open] == t[..|filler|];
    assert s[open..bar] == t[|filler|..|filler| + 1 + |d|];
    assert s[open + 1..bar] == t[|filler| + 1..|filler| + 1 + |d|];
    assert s[bar..] == t[|filler| + 1 + |d|..];
    assert s[bar] == s[bar..][0] && s[open] == s[open..bar][0];
  }

  lemma EntryIsPiece(s: string, from: nat, filler: string, d: string, rest: string) returns (bar: nat)
    requires from <= |s| && s[from..] == filler + (['['] + d + ['|'] + rest)
    requires '[' !in filler && '|' !in d
    ensures bar <= |s| && s[bar..] == ['|'] + rest
    ensures Pieces(s, from) == [d] + Pieces(s, bar)
  {
    var open := from + |filler|;
    bar := open + 1 + |d|;
    EntrySlices(s, from, filler, d, rest);
    FindIs(s, '[', from, open);
    FindIs(s, '|', open, bar);
    PieceAt(s, from, open, bar);
  }

  lemma RenderFirst(parts: seq<Part>, tail: string)
    requires parts != []
    ensures var p, rest := parts[0], Render(parts[1..], tail);
            && Render(parts, tail) == ['['] + p.text + ['|'] + (p.filler + rest)
            && ['|'] + (p.filler + rest) == (['|'] + p.filler) + rest
  {
  }

  lemma TextsFirst(parts: seq<Part>)
    requires parts != []
    ensures Texts(parts) == [parts[0].text] + Texts(parts[1..])
  {
  }

  /** The first part of a rendered list is the first piece of the text. */
  lemma FirstPiece(s: string, from: nat, filler: string, parts: seq<Part>, tail: string) returns (bar: nat)
    requires from <= |s| && s[from..] == filler + Render(parts, tail)
    requires '[' !in filler && parts != [] && '|' !in parts[0].text
    ensures bar <= |s| && s[bar..] == (['|'] + parts[0].filler) + Render(parts[1..], tail)
    ensures Pieces(s, from) == [parts[0].text] + Pieces(s, bar)
  {
    var p, rest := parts[0], Render(parts[1..], tail);
    RenderFirst(parts, tail);
    bar := EntryIsPiece(s, from, filler, p.text, p.filler + rest);
  }

  lemma {:induction false} PiecesOfRender(s: string, from: nat, filler: string, parts: seq<Part>, tail: string)
    requires from <= |s| && s[from..] == filler + Render(parts, tail)
    requires '[' !in filler && Unterminated(tail)
    requires forall p :: p in parts ==> '|' !in p.text && '[' !in p.filler
    ensures Pieces(s, from) == Texts(parts)
    decreases |parts|
  {
    if parts == [] {
      TailHasNoPiece(s, from, filler, tail);
    } else {
      var bar := FirstPiece(s, from, filler, parts, tail);
      PiecesOfRender(s, bar, ['|'] + parts[0].filler, parts[1..], tail);
      TextsFirst(parts);
    }
  }

  lemma {:induction false} FindIsFirst(s: string, c: char, from: nat)
    requires from <= |s|
    ensures match Find(s, c, from)
            case Some(i) => c !in s[from..i]
            case None => c !in s[from..]
    decreases |s| - from
  {
    if from < |s| && s[from] != c {
      FindIsFirst(s, c, from + 1);
      assert s[from..] == [s[from]] + s[from + 1..];
      var r := Find(s, c, from);
      assert r.Some? ==> s[from..r.value] == [s[from]] + s[from + 1..r.value];
    }
  }

  /** A text up to a bracket, from there to a bar, and after it. */
  lemma CutAt(s: string, from: nat, open: nat, bar: nat)
    requires from <= open < bar < |s| && s[open] == '[' && s[bar] == '|'
    ensures s[from..] == s[from..open] + (['['] + s[open + 1..bar] + ['|'] + s[bar + 1..])
  {
    assert s[from..] == s[from..open] + s[open..];
    assert s[open..] == ['['] + s[open + 1..bar] + ['|'] + s[bar + 1..];
  }

  lemma BarAfterBracket(s: string, open: nat, bar: nat)
    requires open < |s| && s[open] == '[' && Find(s, '|', open) == Some(bar)
    ensures open < bar && '|' !in s[open + 1..bar]
  {
    FindIsFirst(s, '|', open);
    assert forall i :: open + 1 <= i < bar ==> s[i] in s[open..bar];
  }

  /** Every text has the form of a rendered list. */
  lemma {:induction false} EveryTextIsRendered(s: string, from: nat)
    returns (prefix: string, parts: seq<Part>, tail: string)
    requires from <= |s|
    ensures s[from..] == prefix + Render(parts, tail)
    ensures '[' !in prefix && Unterminated(tail)
    ensures forall p :: p in parts ==> '|' !in p.text && '[' !in p.filler
    decreases |s| - from
  {
    var open := Find(s, '[', from);
    FindIsFirst(s, '[', from);
    if open.None? {
      prefix, parts, tail := s[from..], [], [];
    } else {
      prefix := s[from..open.value];
      var bar := Find(s, '|', open.value);
      FindIsFirst(s, '|', open.value);
      if bar.None? {
        parts, tail := [], s[open.value..];
        assert s[from..] == prefix + tail;
      } else {
        BarAfterBracket(s, open.value, bar.value);
        CutAt(s, from, open.value, bar.value);
        var filler, text := [], s[open.value + 1..bar.value];
        filler, parts, tail := EveryTextIsRendered(s, bar.value + 1);
        RenderCons(text, filler, parts, tail);
        parts := [Part(text, filler)] + parts;
      }
    }
  }

  lemma RenderCons(text: string, filler: string, parts: seq<Part>, tail: string)
    ensures Render([Part(text, filler)] + parts, tail)
            == ['['] + text + ['|'] + (filler + Render(parts, tail))
  {
    RenderFirst([Part(text, filler)] + parts, tail);
    assert ([Part(text, filler)] + parts)[1..] == parts;
  }

  /** So the pieces of every output are the texts of the list it renders. */
  lemma EveryOutputIsRendered(s: string) returns (prefix: string, parts: seq<Part>, tail: string)
    ensures s == prefix + Render(parts, tail) && '[' !in prefix && Unterminated(tail)
    ensures forall p :: p in parts ==> '|' !in p.text && '[' !in p.filler
    ensures Pieces(s, 0) == Texts(parts)
  {
    prefix, parts, tail := EveryTextIsRendered(s, 0);
    assert s[0..] == s;
    PiecesOfRender(s, 0, prefix, parts, tail);
  }

  lemma {:induction false} PartsOfEntries(entries: seq<Entry>)
    requires forall e :: e in entries ==> '[' !in e.filler
    ensures forall p :: p in Parts(entries) ==> '|' !in p.text && '[' !in p.filler
  {
    if entries != [] {
      DecimalValue(entries[0].id);
      PartsOfEntries(entries[1..]);
    }
  }

  lemma FirstText(entries: seq<Entry>)
    requires entries != []
    ensures Texts(Parts(entries)) == [Decimal(entries[0].id)] + Texts(Parts(entries[1..]))
  {
    assert Parts(entries)[1..] == Parts(entries[1..]);
    TextsFirst(Parts(entries));
  }

  /** A number that fits 16 bits is kept as it is. */
  lemma ConvertFirst(piece: string, rest: seq<string>, id: nat)
    requires StoI(piece) == Success(id) && id < TWO_16
    ensures ConvertAll([piece] + rest) == Prepend(id, ConvertAll(rest))
  {
    assert ([piece] + rest)[1..] == rest;
  }

  lemma {:induction false} ConvertNumbers(entries: seq<Entry>)
    requires forall e :: e in entries ==> e.id < TWO_16
    ensures ConvertAll(Texts(Parts(entries))) == Success(Ids(entries))
  {
    if entries != [] {
      FirstText(entries);
      StoIOfDecimal(entries[0].id);
      ConvertFirst(Decimal(entries[0].id), Texts(Parts(entries[1..])), entries[0].id);
      ConvertNumbers(entries[1..]);
      assert Ids(entries) == [entries[0].id] + Ids(entries[1..]);
    }
  }

  /** Printing a list of 16-bit node ids and scanning it gives the list back, in
      order, whatever surrounds the entries as long as it has no bracket; only an
      unterminated last entry is dropped. */
  lemma NodeListRoundTrip(prefix: string, entries: seq<Entry>, tail: string)
    requires '[' !in prefix && Unterminated(tail)
    requires forall e :: e in entries ==> e.id < TWO_16 && '[' !in e.filler
    ensures ConvertAll(Pieces(prefix + Render(Parts(entries), tail), 0)) == Success(Ids(entries))
  {
    var s := prefix + Render(Parts(entries), tail);
    assert s[0..] == s;
    PartsOfEntries(entries);
    PiecesOfRender(s, 0, prefix, Parts(entries), tail);
    ConvertNumbers(entries);
  }

  // -------------------------------------------------------------- filtering

  /** The ids that belong to a running FPGA. */
  function Filter(ids: seq<nat>, isFpga: nat -> bool): seq<nat> {
    if ids == [] then []
    else
      var last := ids[|ids| - 1];
      Filter(ids[..|ids| - 1], isFpga) + (if isFpga(last) then [last] else [])
  }

  /** The filtered list is an order-preserving subsequence: `kept` lists the
      positions that stay, and those are exactly the positions of FPGAs. */
  lemma {:induction false} FilterKeepsOrder(ids: seq<nat>, isFpga: nat -> bool) returns (kept: seq<nat>)
    ensures |kept| == |Filter(ids, isFpga)|
    ensures forall k :: 0 <= k < |kept| ==> kept[k] < |ids| && Filter(ids, isFpga)[k] == ids[kept[k]]
    ensures forall j, k :: 0 <= j < k < |kept| ==> kept[j] < kept[k]
    ensures forall i :: 0 <= i < |ids| ==> (isFpga(ids[i]) <==> i in kept)
  {
    kept := [];
    if ids != [] {
      kept := FilterKeepsOrder(ids[..|ids| - 1], isFpga);
      if isFpga(ids[|ids| - 1]) {
        kept := kept + [|ids| - 1];
      }
    }
  }

  method GetFpgaNodeIds(ids: seq<nat>, isFpga: nat -> bool) returns (fpgas: seq<nat>)
    ensures fpgas == Filter(ids, isFpga)
  {
    fpgas := [];
    for i := 0 to |ids|
      invariant fpgas == Filter(ids[..i], isFpga)
    {
      assert ids[..i + 1][..i] == ids[..i];
      if isFpga(ids[i]) {
        fpgas := fpgas + [ids[i]];
      }
    }
    assert ids[..|ids|] == ids;
  }

  /** The first node of the list that is an FPGA, or the error that there is none. */
  method GetFpgaNodeId(ids: seq<nat>, isFpga: nat -> bool) returns (r: Result<nat, Error>)
    ensures r.Failure? <==> forall i :: 0 <= i < |ids| ==> !isFpga(ids[i])
    ensures r.Failure? ==> r.error == NoFpga
    ensures r.Success? ==> exists i :: 0 <= i < |ids| && r.value == ids[i] && isFpga(ids[i])
                                       && forall j :: 0 <= j < i ==> !isFpga(ids[j])
  {
    var fpgas := GetFpgaNodeIds(ids, isFpga);
    ghost var kept := FilterKeepsOrder(ids, isFpga);
    if fpgas == [] {
      return Failure(NoFpga);
    }
    assert isFpga(ids[kept[0]]);
    return Success(fpgas[0]);
  }
}
