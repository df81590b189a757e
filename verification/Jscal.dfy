/** The correction list of jscal.c: print_settings writes it, set_correction reads
    it back with sscanf and strstr. */
module Jscal {

  const MAX_AXES: nat := 16
  const MAX_CORR: int := 1

  datatype Option<T> = None | Some(value: T)

  // struct js_corr: __s32 coef[8], __s16 prec, __u16 type.
  datatype Corr = Corr(kind: int, prec: int, coef: seq<int>)

  datatype Outcome =
    | Accepted
    | MissingAxes | WrongAxes | MissingType | UnknownType | MissingPrecision | MissingCoefficient | TooManyValues
    | Undefined      // corr_coef_num[] is read outside its two entries

  predicate IsCorr(c: Corr)
  {
    |c.coef| == 8 && 0 <= c.kind <= 1 && -0x8000 <= c.prec < 0x8000
  }

  function CoefNum(kind: int): nat { if kind == 1 then 4 else 0 }

  function ToUInt16(t: int): int { t % 0x1_0000 }

  function ToInt16(t: int): int { (t + 0x8000) % 0x1_0000 - 0x8000 }

  // ---------- printf("%d") and sscanf("%d") ----------

  predicate IsDigit(c: char) { '0' <= c <= '9' }

  predicate IsSpace(c: char)
  {
    c == ' ' || c == '\t' || c == '\n' || c == '\r' || c as int == 11 || c as int == 12
  }

  function Digits(n: nat): string
  {
    if n < 10 then ['0' + n as char] else Digits(n / 10) + ['0' + (n % 10) as char]
  }

  function Decimal(n: int): string
  {
    if n < 0 then ['-'] + Digits(-n) else Digits(n)
  }

  function SkipSpace(s: string): string
  {
    if s != [] && IsSpace(s[0]) then SkipSpace(s[1..]) else s
  }

  function LeadingDigits(s: string): (d: string)
    ensures forall i :: 0 <= i < |d| ==> IsDigit(d[i])
  {
    if s != [] && IsDigit(s[0]) then [s[0]] + LeadingDigits(s[1..]) else []
  }

  function Number(d: string): nat
    requires forall i :: 0 <= i < |d| ==> IsDigit(d[i])
  {
    if d == [] then 0
    else assert IsDigit(d[|d| - 1]); Number(d[..|d| - 1]) * 10 + (d[|d| - 1] as int - '0' as int)
  }

  // White space, a sign, digits; None when there is no digit and t keeps its value.
  function Scan(s: string): Option<int>
  {
    var u := SkipSpace(s);
    var signed := u != [] && (u[0] == '-' || u[0] == '+');
    var d := LeadingDigits(if signed then u[1..] else u);
    if d == [] then None
    else if signed && u[0] == '-' then Some(-(Number(d) as int))
    else Some(Number(d))
  }

  function Assign(t: int, scanned: Option<int>): int
  {
    if scanned.Some? then scanned.value else t
  }

  // ---------- what %d reads ----------

  predicate Blanks(w: string)
  {
    forall i :: 0 <= i < |w| ==> w[i] in {' ', '\t', '\n', '\r', 11 as char, 12 as char}
  }

  predicate AllDigits(d: string) { forall i :: 0 <= i < |d| ==> '0' <= d[i] <= '9' }

  // The blanks, the sign and the digits in front of the rest.
  predicate Spells(s: string, w: string, sign: string, d: string, rest: string)
  {
    && s == w + (sign + (d + rest))
    && Blanks(w) && (sign == "" || sign == "+" || sign == "-")
    && d != [] && AllDigits(d) && (rest != [] ==> !('0' <= rest[0] <= '9'))
  }

  // Digits read from the front, the first one counting most.
  function FromFront(high: int, d: string): int
    decreases |d|
  {
    if d == [] then high else FromFront(10 * high + (d[0] as int - 48), d[1..])
  }

  lemma {:induction false} NumberFromFront(high: string, d: string)
    requires AllDigits(high + d)
    ensures (forall i :: 0 <= i < |high| ==> IsDigit(high[i])) && (forall i :: 0 <= i < |high + d| ==> IsDigit((high + d)[i]))
    ensures FromFront(Number(high), d) == Number(high + d)
    decreases |d|
  {
    forall i | 0 <= i < |high|
      ensures IsDigit(high[i])
    {
      assert high[i] == (high + d)[i];
    }
    if d == [] {
      assert high + d == high;
    } else {
      var high' := high + [d[0]];
      assert high' + d[1..] == high + d;
      NumberFromFront(high', d[1..]);
      assert high'[..|high'| - 1] == high;
      assert d[0] == (high + d)[|high|];
    }
  }

  lemma {:induction false} SkipsBlanks(w: string, s: string)
    requires Blanks(w)
    requires s != [] ==> s[0] !in {' ', '\t', '\n', '\r', 11 as char, 12 as char}
    ensures SkipSpace(w + s) == s
  {
    if w == [] {
      assert w + s == s;
    } else {
      assert (w + s)[1..] == w[1..] + s;
      SkipsBlanks(w[1..], s);
    }
  }

  lemma {:induction false} TakesDigits(d: string, rest: string)
    requires AllDigits(d) && (rest != [] ==> !('0' <= rest[0] <= '9'))
    ensures LeadingDigits(d + rest) == d
  {
    if d == [] {
      assert d + rest == rest;
    } else {
      assert (d + rest)[1..] == d[1..] + rest;
      TakesDigits(d[1..], rest);
    }
  }

  // Blanks, a sign and digits are read as the signed number, whatever follows.
  lemma ScanReadsNumber(s: string, w: string, sign: string, d: string, rest: string)
    requires Spells(s, w, sign, d, rest)
    ensures Scan(s) == Some(if sign == "-" then -FromFront(0, d) else FromFront(0, d))
  {
    var t := sign + (d + rest);
    assert t[0] == if sign == "" then d[0] else sign[0];
    SkipsBlanks(w, t);
    TakesDigits(d, rest);
    NumberFromFront([], d);
    assert [] + d == d;
    hide SkipSpace, Blanks, LeadingDigits, Number, FromFront;
    if sign == "" {
      assert t == d + rest;
    } else {
      assert t[1..] == d + rest;
    }
  }

  // Nothing is read exactly when the text does not start like that.
  lemma ScanFindsNothing(s: string)
    ensures Scan(s) == None <==> !exists w, sign, d, rest :: Spells(s, w, sign, d, rest)
  {
    hide Scan, Spells;
    if w, sign, d, rest :| Spells(s, w, sign, d, rest) {
      ScanReadsNumber(s, w, sign, d, rest);
    }
    if Scan(s) != None {
      var w, sign, d, rest := ScannedParts(s);
    }
  }

  lemma ScannedParts(s: string) returns (w: string, sign: string, d: string, rest: string)
    requires Scan(s) != None
    ensures Spells(s, w, sign, d, rest)
  {
    w := BlanksOf(s);
    var u := SkipSpace(s);
    var signed := u != [] && (u[0] == '-' || u[0] == '+');
    assert LeadingDigits(if signed then u[1..] else u) != [];
    hide Scan, SkipSpace, Blanks, LeadingDigits, AllDigits;
    sign, d, rest := SignedParts(u, signed);
  }

  lemma SignedParts(u: string, signed: bool) returns (sign: string, d: string, rest: string)
    requires signed ==> u != [] && (u[0] == '-' || u[0] == '+')
    requires LeadingDigits(if signed then u[1..] else u) != []
    ensures u == sign + (d + rest) && (sign == "" || sign == "+" || sign == "-")
    ensures d != [] && AllDigits(d) && (rest != [] ==> !('0' <= rest[0] <= '9'))
  {
    var t := if signed then u[1..] else u;
    sign := if signed then [u[0]] else [];
    d := LeadingDigits(t);
    DigitsAreAPrefix(t);
    hide LeadingDigits, AllDigits;
    rest := t[|d|..];
    assert t == d + rest;
    assert u == sign + t;
  }

  function BlanksOf(s: string): (w: string)
    ensures Blanks(w) && s == w + SkipSpace(s)
  {
    if s != [] && IsSpace(s[0]) then [s[0]] + BlanksOf(s[1..]) else []
  }

  lemma {:induction false} DigitsAreAPrefix(s: string)
    ensures var n := |LeadingDigits(s)|;
      && n <= |s| && s[..n] == LeadingDigits(s) && AllDigits(LeadingDigits(s))
      && (n < |s| ==> !('0' <= s[n] <= '9'))
  {
    if s != [] && IsDigit(s[0]) {
      DigitsAreAPrefix(s[1..]);
    }
  }

  // ---------- commas ----------

  // The text up to the first comma.
  function Head(s: string): string
  {
    if s == [] || s[0] == ',' then [] else [s[0]] + Head(s[1..])
  }

  // strstr(s, ","): the text from the first comma on, if there is one.
  function FromComma(s: string): (r: Option<string>)
    ensures r.Some? ==> r.value != [] && |r.value| <= |s|
  {
    if s == [] then None
    else if s[0] == ',' then Some(s)
    else FromComma(s[1..])
  }

  // The fields of a list, split at every comma.
  function Pieces(s: string): (ps: seq<string>)
    ensures ps != []
    decreases |s|
  {
    var r := FromComma(s);
    if r.None? then [Head(s)] else [Head(s)] + Pieces(r.value[1..])
  }

  // The fields from a cursor on, which is null or stands at a comma.
  function PiecesAt(p: Option<string>): seq<string>
    requires p.Some? ==> p.value != []
  {
    if p.None? then [] else Pieces(p.value[1..])
  }

  // ps[0],ps[1],...
  function Joined(ps: seq<string>): string
    requires ps != []
  {
    if |ps| == 1 then ps[0] else ps[0] + [','] + Joined(ps[1..])
  }

  // The pieces hold no comma, and with commas between them they are the list.
  lemma {:induction false} PiecesRejoin(s: string)
    ensures Joined(Pieces(s)) == s && forall p :: p in Pieces(s) ==> ',' !in p
    decreases |s|
  {
    HeadAndRest(s);
    var r, h := FromComma(s), Head(s);
    assert Pieces(s) == if r.None? then [h] else [h] + Pieces(r.value[1..]);
    hide FromComma, Head, Pieces;
    if r.Some? {
      PiecesRejoin(r.value[1..]);
      assert Pieces(s)[1..] == Pieces(r.value[1..]);
      assert s == h + [','] + r.value[1..];
    }
  }

  lemma {:induction false} HeadAndRest(s: string)
    ensures ',' !in Head(s)
    ensures s == Head(s) + (if FromComma(s).Some? then FromComma(s).value else [])
    ensures FromComma(s).Some? ==> FromComma(s).value != [] && FromComma(s).value[0] == ','
  {
    if s != [] && s[0] != ',' {
      HeadAndRest(s[1..]);
    }
  }

  // Reading a number where a field starts reads that field only.
  lemma ScanReadsOneField(s: string)
    ensures Scan(s) == Scan(Head(s))
  {
    SkipSpaceHead(s);
    var u, h := SkipSpace(s), SkipSpace(Head(s));
    assert h == Head(u);
    if u != [] && (u[0] == '-' || u[0] == '+') {
      assert h[1..] == Head(u[1..]);
      LeadingDigitsHead(u[1..]);
    } else {
      LeadingDigitsHead(u);
    }
  }

  lemma {:induction false} SkipSpaceHead(s: string)
    ensures SkipSpace(Head(s)) == Head(SkipSpace(s))
  {
    if s != [] && IsSpace(s[0]) {
      assert Head(s)[1..] == Head(s[1..]);
      SkipSpaceHead(s[1..]);
    }
  }

  lemma {:induction false} LeadingDigitsHead(s: string)
    ensures LeadingDigits(Head(s)) == LeadingDigits(s)
  {
    if s != [] && IsDigit(s[0]) {
      assert Head(s)[1..] == Head(s[1..]);
      LeadingDigitsHead(s[1..]);
    }
  }

  // ---------- set_correction on the list of fields ----------

  datatype Parsed = Parsed(outcome: Outcome, corr: seq<Corr>)

  function SetCoefs(coef: seq<int>, ps: seq<string>, n: nat): (r: seq<int>)
    requires n <= |ps| && n <= |coef|
    ensures |r| == |coef|
  {
    if n == 0 then coef
    else SetCoefs(coef, ps, n - 1)[n - 1 := Assign(coef[n - 1], Scan(ps[n - 1]))]
  }

  // Axes i, i+1, ... of the list, with t the number last read.
  function SetAxes(ps: seq<string>, i: nat, axes: int, t: int, corr: seq<Corr>): Parsed
    requires axes <= |corr| && forall c :: c in corr ==> |c.coef| == 8
    decreases axes - i
  {
    if i >= axes then Parsed(if ps == [] then Accepted else TooManyValues, corr)
    else if ps == [] then Parsed(MissingType, corr)
    else
      var t1 := Assign(t, Scan(ps[0]));
      var kind := ToUInt16(t1);
      if t1 > MAX_CORR then Parsed(UnknownType, corr)
      else if |ps| == 1 then Parsed(MissingPrecision, corr)
      else
        var t2 := Assign(t1, Scan(ps[1]));
        if kind > 1 then Parsed(Undefined, corr)
        else if |ps| - 2 < CoefNum(kind) then Parsed(MissingCoefficient, corr)
        else
          var n := CoefNum(kind);
          var c := Corr(kind, ToInt16(t2), SetCoefs(corr[i].coef, ps[2..], n));
          SetAxes(ps[2 + n..], i + 1, axes, t2, corr[i := c])
  }

  function Clip(axes: int): int { if axes > MAX_AXES then MAX_AXES else axes }

  function SetList(ps: seq<string>, axes: int, corr: seq<Corr>): Parsed
    requires ps != [] && |corr| == MAX_AXES && forall c :: c in corr ==> |c.coef| == 8
  {
    var t := Assign(0, Scan(ps[0]));
    if t != Clip(axes) then Parsed(WrongAxes, corr)
    else SetAxes(ps[1..], 0, Clip(axes), t, corr)
  }

  // ---------- set_correction, lines 344-414 ----------

  // Reads the next field of the list and moves the cursor to the comma behind it.
  method Next(p: string, t0: int, ghost ps: seq<string>) returns (t: int, q: Option<string>)
    requires Pieces(p) == ps
    ensures ps != [] && t == Assign(t0, Scan(ps[0]))
    ensures (q.Some? ==> q.value != []) && PiecesAt(q) == ps[1..]
  {
    ScanReadsOneField(p);
    t := Assign(t0, Scan(p));
    q := FromComma(p);
  }

  method SetCorrection(list: Option<string>, axes0: int, corr: array<Corr>) returns (r: Outcome)
    requires corr.Length == MAX_AXES && forall i :: 0 <= i < MAX_AXES ==> |corr[i].coef| == 8
    modifies corr
    ensures list.None? ==> r == MissingAxes
    ensures list.Some? ==> r == SetList(Pieces(list.value), axes0, old(corr[..])).outcome
    ensures list.Some? && r == Accepted ==> corr[..] == SetList(Pieces(list.value), axes0, old(corr[..])).corr
  {
    hide Scan, Pieces, SetAxes, PiecesAt;
    var axes := if axes0 > MAX_AXES then MAX_AXES else axes0;
    if list.None? {
      return MissingAxes;
    }
    var t, p := Next(list.value, 0, Pieces(list.value));
    if t != axes {
      return WrongAxes;
    }
    ghost var goal := SetAxes(PiecesAt(p), 0, axes, t, corr[..]);
    var i := 0;
    while i < axes
      invariant 0 <= i && (p.Some? ==> p.value != [])
      invariant forall k :: 0 <= k < MAX_AXES ==> |corr[k].coef| == 8
      invariant goal == SetAxes(PiecesAt(p), i, axes, t, corr[..])
      decreases axes - i
    {
      var done;
      done, r, p, t := SetAxis(p, i, axes, t, corr);
      if done {
        return;
      }
      i := i + 1;
    }
    SetAxesEnd(PiecesAt(p), i, axes, t, corr[..]);
    CursorAtEnd(p);
    if p.Some? {
      return TooManyValues;
    }
    r := Accepted;
  }

  lemma SetAxesEnd(ps: seq<string>, i: nat, axes: int, t: int, corr: seq<Corr>)
    requires i >= axes && axes <= |corr| && forall c :: c in corr ==> |c.coef| == 8
    ensures SetAxes(ps, i, axes, t, corr) == Parsed(if ps == [] then Accepted else TooManyValues, corr)
  {
  }

  lemma CursorAtEnd(p: Option<string>)
    requires p.Some? ==> p.value != []
    ensures p.None? <==> PiecesAt(p) == []
  {
  }

  // One turn of the loop, lines 371-403; done means the program has given up.
  method SetAxis(p0: Option<string>, i: nat, axes: int, t0: int, corr: array<Corr>)
    returns (done: bool, r: Outcome, p: Option<string>, t: int)
    requires i < axes <= MAX_AXES == corr.Length && (p0.Some? ==> p0.value != [])
    requires forall k :: 0 <= k < MAX_AXES ==> |corr[k].coef| == 8
    modifies corr
    ensures (p.Some? ==> p.value != []) && forall k :: 0 <= k < MAX_AXES ==> |corr[k].coef| == 8
    ensures done ==> r != Accepted && r == SetAxes(PiecesAt(p0), i, axes, t0, old(corr[..])).outcome
    ensures !done ==> SetAxes(PiecesAt(p0), i, axes, t0, old(corr[..])) == SetAxes(PiecesAt(p), i + 1, axes, t, corr[..])
  {
    hide Scan, Pieces, PiecesAt;
    done, r, p, t := true, Accepted, p0, t0;
    ghost var c0, ps := corr[..], PiecesAt(p0);
    CursorAtEnd(p);
    if p.None? {
      r := MissingType;
      return;
    }
    CursorPieces(p.value);
    t, p := Next(p.value[1..], t, ps);
    if t > MAX_CORR {
      r := UnknownType;
      return;
    }
    corr[i] := corr[i].(kind := ToUInt16(t));
    CursorAtEnd(p);
    if p.None? {
      r := MissingPrecision;
      return;
    }
    CursorPieces(p.value);
    t, p := Next(p.value[1..], t, ps[1..]);
    corr[i] := corr[i].(prec := ToInt16(t));
    if corr[i].kind > 1 {
      r := Undefined;
      return;
    }
    var ok;
    ok, p := ReadCoefs(p, i, corr, ps[2..]);
    if !ok {
      r := MissingCoefficient;
      return;
    }
    ghost var n := CoefNum(corr[i].kind);
    assert ps[2..][n..] == ps[2 + n..];
    assert corr[..] == c0[i := Corr(corr[i].kind, ToInt16(t), SetCoefs(c0[i].coef, ps[2..], n))];
    done := false;
  }

  lemma CursorPieces(s: string)
    requires s != []
    ensures PiecesAt(Some(s)) == Pieces(s[1..])
  {
  }

  // Lines 395-402.
  method ReadCoefs(p0: Option<string>, i: nat, corr: array<Corr>, ghost ps: seq<string>) returns (ok: bool, p: Option<string>)
    requires i < corr.Length && |corr[i].coef| == 8 && 0 <= corr[i].kind <= 1
    requires (p0.Some? ==> p0.value != []) && PiecesAt(p0) == ps
    modifies corr
    ensures p.Some? ==> p.value != []
    ensures forall k :: 0 <= k < corr.Length && k != i ==> corr[k] == old(corr[k])
    ensures |corr[i].coef| == 8
    ensures ok <==> |ps| >= CoefNum(old(corr[i].kind))
    ensures ok ==> PiecesAt(p) == ps[CoefNum(old(corr[i].kind))..]
    ensures ok ==> corr[i] == old(corr[i]).(coef := SetCoefs(old(corr[i].coef), ps, CoefNum(old(corr[i].kind))))
  {
    hide Scan, Pieces, PiecesAt;
    p := p0;
    ghost var c := corr[i];
    var n := CoefNum(corr[i].kind);
    assert ps[0..] == ps;
    for j := 0 to n
      invariant forall k :: 0 <= k < corr.Length && k != i ==> corr[k] == old(corr[k])
      invariant j <= |ps| && (p.Some? ==> p.value != []) && PiecesAt(p) == ps[j..]
      invariant corr[i] == c.(coef := SetCoefs(c.coef, ps, j)) && |corr[i].coef| == 8
      invariant forall k :: j <= k < 8 ==> corr[i].coef[k] == c.coef[k]
    {
      CursorAtEnd(p);
      if p.None? {
        return false, p;
      }
      CursorPieces(p.value);
      var x;
      x, p := Next(p.value[1..], corr[i].coef[j], ps[j..]);
      assert ps[j..][0] == ps[j] && ps[j..][1..] == ps[j + 1..];
      corr[i] := corr[i].(coef := corr[i].coef[j := x]);
    }
    ok := true;
  }

  // ---------- print_settings, lines 335-340 ----------

  function PrintedAxis(c: Corr): seq<string>
    requires IsCorr(c)
  {
    [Decimal(c.kind), Decimal(c.prec)] + seq(CoefNum(c.kind), j requires 0 <= j < CoefNum(c.kind) => Decimal(c.coef[j]))
  }

  // The fields printed for axes i, ..., n - 1.
  function PrintedAxes(corr: seq<Corr>, i: nat, n: nat): seq<string>
    requires i <= n <= |corr| && forall c :: c in corr ==> IsCorr(c)
    decreases n - i
  {
    if i == n then [] else PrintedAxis(corr[i]) + PrintedAxes(corr, i + 1, n)
  }

  lemma {:induction false} PrintedAxesAppend(corr: seq<Corr>, i: nat, n: nat)
    requires i <= n < |corr| && forall c :: c in corr ==> IsCorr(c)
    ensures PrintedAxes(corr, i, n + 1) == PrintedAxes(corr, i, n) + PrintedAxis(corr[n])
    decreases n - i
  {
    hide PrintedAxis;
    if i < n {
      PrintedAxesAppend(corr, i + 1, n);
    } else {
      assert PrintedAxes(corr, n + 1, n + 1) == [];
    }
  }

  ghost predicate NoComma(s: string) { ',' !in s }

  // Writing ",x" after a list adds a field.
  lemma {:induction false} PiecesAppend(s: string, x: string)
    requires NoComma(x)
    ensures Pieces(s + [','] + x) == Pieces(s) + [x]
    decreases |s|
  {
    var l := s + [','] + x;
    HeadAppend(s, [','] + x);
    assert l == s + ([','] + x);
    FromCommaAppend(s, [','] + x);
    NoCommaPieces(x);
    assert ([','] + x)[1..] == x;
    var r := FromComma(s);
    if r.Some? {
      PiecesAppend(r.value[1..], x);
      assert (r.value + ([','] + x))[1..] == r.value[1..] + [','] + x;
    }
  }

  lemma {:induction false} HeadAppend(s: string, x: string)
    requires x != [] && x[0] == ','
    ensures Head(s + x) == Head(s)
  {
    if s != [] {
      assert (s + x)[1..] == s[1..] + x;
      HeadAppend(s[1..], x);
    } else {
      assert s + x == x;
    }
  }

  lemma {:induction false} FromCommaAppend(s: string, x: string)
    requires x != [] && x[0] == ','
    ensures FromComma(s + x) == if FromComma(s).Some? then Some(FromComma(s).value + x) else Some(x)
  {
    if s != [] {
      assert (s + x)[1..] == s[1..] + x;
      FromCommaAppend(s[1..], x);
    } else {
      assert s + x == x;
    }
  }

  lemma {:induction false} NoCommaPieces(x: string)
    requires NoComma(x)
    ensures Head(x) == x && FromComma(x).None? && Pieces(x) == [x]
  {
    if x != [] {
      NoCommaPieces(x[1..]);
    }
  }

  method PrintField(list: string, n: int, ghost ps: seq<string>) returns (r: string)
    requires Pieces(list) == ps
    ensures Pieces(r) == ps + [Decimal(n)]
  {
    hide Pieces, Decimal;
    DecimalScans(n);
    PiecesAppend(list, Decimal(n));
    r := list + [','] + Decimal(n);
  }

  // Lines 337-339.
  method PrintAxis(list: string, c: Corr, ghost ps: seq<string>) returns (r: string)
    requires IsCorr(c) && Pieces(list) == ps
    ensures Pieces(r) == ps + PrintedAxis(c)
  {
    hide Pieces, Decimal;
    ghost var axis := PrintedAxis(c);
    r := PrintField(list, c.kind, ps);
    r := PrintField(r, c.prec, ps + [Decimal(c.kind)]);
    assert ps + [Decimal(c.kind)] + [Decimal(c.prec)] == ps + axis[..2];
    for j := 0 to CoefNum(c.kind)
      invariant Pieces(r) == ps + axis[..2 + j]
    {
      assert axis[..2 + j + 1] == axis[..2 + j] + [Decimal(c.coef[j])];
      r := PrintField(r, c.coef[j], ps + axis[..2 + j]);
    }
    assert axis[..|axis|] == axis;
  }

  method PrintSettings(axes: nat, corr: array<Corr>) returns (list: string)
    requires axes <= MAX_AXES == corr.Length && forall i :: 0 <= i < MAX_AXES ==> IsCorr(corr[i])
    ensures Pieces(list) == [Decimal(axes)] + PrintedAxes(corr[..], 0, axes)
  {
    hide Pieces, Decimal, PrintedAxes, PrintedAxis, IsCorr;
    DecimalScans(axes);
    NoCommaPieces(Decimal(axes));
    list := Decimal(axes);
    PrintedAxesNone(corr[..]);
    for i := 0 to axes
      invariant Pieces(list) == [Decimal(axes)] + PrintedAxes(corr[..], 0, i)
    {
      PrintedAxesAppend(corr[..], 0, i);
      list := PrintAxis(list, corr[i], Pieces(list));
    }
  }

  lemma PrintedAxesNone(corr: seq<Corr>)
    requires forall c :: c in corr ==> IsCorr(c)
    ensures PrintedAxes(corr, 0, 0) == []
  {
  }

  // ---------- reading back what was printed ----------

  lemma {:induction false} DigitsAreDigits(n: nat)
    ensures Digits(n) != []
    ensures forall i :: 0 <= i < |Digits(n)| ==> IsDigit(Digits(n)[i])
    ensures Number(Digits(n)) == n
  {
    if n >= 10 {
      DigitsAreDigits(n / 10);
      var d := Digits(n);
      assert d[..|d| - 1] == Digits(n / 10);
    } else {
      assert Digits(n)[..0] == [];
    }
  }

  // As %d prints: a minus for negative numbers only, and no needless zero in front.
  lemma DecimalIsCanonical(n: int)
    ensures var d := if n < 0 then Decimal(n)[1..] else Decimal(n);
      && (n < 0 ==> Decimal(n)[0] == '-') && d != [] && AllDigits(d) && (d[0] == '0' ==> d == "0")
      && FromFront(0, d) == if n < 0 then -n else n
  {
    var m := if n < 0 then -n else n;
    DigitsAreDigits(m);
    NoZeroInFront(m);
    assert [] + Digits(m) == Digits(m);
    NumberFromFront([], Digits(m));
    hide Digits, FromFront, Number;
    assert n < 0 ==> Decimal(n)[1..] == Digits(m);
  }

  lemma {:induction false} NoZeroInFront(n: nat)
    ensures Digits(n) != [] && (Digits(n)[0] == '0' ==> n == 0 && Digits(n) == "0")
  {
    if n >= 10 {
      NoZeroInFront(n / 10);
    }
  }

  lemma {:induction false} AllDigitsLead(d: string)
    requires forall i :: 0 <= i < |d| ==> IsDigit(d[i])
    ensures LeadingDigits(d) == d
  {
    if d != [] {
      AllDigitsLead(d[1..]);
    }
  }

  lemma DecimalScans(n: int)
    ensures Scan(Decimal(n)) == Some(n) && NoComma(Decimal(n))
  {
    hide Digits, Number, LeadingDigits;
    var d := Digits(if n < 0 then -n else n);
    DigitsAreDigits(if n < 0 then -n else n);
    AllDigitsLead(d);
    assert IsDigit(d[0]);
    if n < 0 {
      assert Decimal(n)[1..] == d;
    }
  }

  // Printed fields of c over an old entry: coefficients that were not printed stay.
  function Merge(entry: Corr, c: Corr): (r: Corr)
    requires |entry.coef| == 8 && IsCorr(c)
    ensures |r.coef| == 8
  {
    var n := CoefNum(c.kind);
    Corr(c.kind, c.prec, c.coef[..n] + entry.coef[n..])
  }

  lemma {:induction false} SetCoefsReads(coef: seq<int>, ps: seq<string>, xs: seq<int>, n: nat)
    requires n <= |ps| && n <= |coef| && n <= |xs|
    requires forall j :: 0 <= j < n ==> Scan(ps[j]) == Some(xs[j])
    ensures SetCoefs(coef, ps, n) == xs[..n] + coef[n..]
  {
    hide Scan;
    if n > 0 {
      SetCoefsReads(coef, ps, xs, n - 1);
    }
  }

  lemma OneAxisRestores(c: Corr, rest: seq<string>, i: nat, n: int, t: int, cur: seq<Corr>)
    requires IsCorr(c) && i < n <= |cur| && forall c :: c in cur ==> |c.coef| == 8
    ensures SetAxes(PrintedAxis(c) + rest, i, n, t, cur) == SetAxes(rest, i + 1, n, c.prec, cur[i := Merge(cur[i], c)])
  {
    hide Scan, Decimal, SetCoefs;
    var axis, m := PrintedAxis(c), CoefNum(c.kind);
    var ps := axis + rest;
    DecimalScans(c.kind);
    DecimalScans(c.prec);
    assert ps[0] == Decimal(c.kind) && ps[1] == Decimal(c.prec);
    forall j | 0 <= j < m
      ensures Scan(ps[2..][j]) == Some(c.coef[j])
    {
      DecimalScans(c.coef[j]);
      assert ps[2..][j] == axis[2 + j];
    }
    SetCoefsReads(cur[i].coef, ps[2..], c.coef, m);
    assert ToUInt16(c.kind) == c.kind && ToInt16(c.prec) == c.prec;
    assert ps[2 + m..] == rest;
  }

  lemma {:induction false} SetAxesRestores(src: seq<Corr>, i: nat, n: nat, t: int, cur: seq<Corr>)
    requires i <= n <= |src| == |cur|
    requires (forall c :: c in src ==> IsCorr(c)) && forall c :: c in cur ==> |c.coef| == 8
    ensures var r := SetAxes(PrintedAxes(src, i, n), i, n, t, cur);
      && r.outcome == Accepted && |r.corr| == |cur|
      && forall k :: 0 <= k < |cur| ==> r.corr[k] == if i <= k < n then Merge(cur[k], src[k]) else cur[k]
    decreases n - i
  {
    hide PrintedAxis, IsCorr, Merge, Scan, SetCoefs;
    if i < n {
      assert src[i] in src;
      OneAxisRestores(src[i], PrintedAxes(src, i + 1, n), i, n, t, cur);
      hide SetAxes, PrintedAxes;
      var cur' := cur[i := Merge(cur[i], src[i])];
      SetAxesRestores(src, i + 1, n, src[i].prec, cur');
    }
  }

  // set_correction on what print_settings wrote restores every printed field and
  // leaves the rest as it was.
  lemma PrintThenSet(src: seq<Corr>, axes: nat, list: string, cur: seq<Corr>)
    requires axes <= MAX_AXES == |src| == |cur|
    requires (forall c :: c in src ==> IsCorr(c)) && forall c :: c in cur ==> |c.coef| == 8
    requires Pieces(list) == [Decimal(axes)] + PrintedAxes(src, 0, axes)
    ensures var r := SetList(Pieces(list), axes, cur);
      && r.outcome == Accepted && |r.corr| == MAX_AXES
      && forall k :: 0 <= k < MAX_AXES ==> r.corr[k] == if k < axes then Merge(cur[k], src[k]) else cur[k]
  {
    hide Scan, Decimal, Pieces, PrintedAxes;
    DecimalScans(axes);
    assert Pieces(list)[1..] == PrintedAxes(src, 0, axes);
    SetAxesRestores(src, 0, axes, axes, cur);
  }

  // Both programs together, on any two correction arrays.
  method PrintAndSet(axes: nat, src: array<Corr>, dst: array<Corr>) returns (r: Outcome)
    requires axes <= MAX_AXES == src.Length == dst.Length && src != dst
    requires forall i :: 0 <= i < MAX_AXES ==> IsCorr(src[i]) && |dst[i].coef| == 8
    modifies dst
    ensures r == Accepted
    ensures forall k :: 0 <= k < MAX_AXES ==>
              dst[k] == if k < axes then Merge(old(dst[k]), src[k]) else old(dst[k])
  {
    hide Pieces, PrintedAxes, SetList, Merge, IsCorr;
    ghost var cur := dst[..];
    var list := PrintSettings(axes, src);
    PrintThenSet(src[..], axes, list, cur);
    r := SetCorrection(Some(list), axes, dst);
    ghost var after := dst[..];
    assert forall k :: 0 <= k < MAX_AXES ==> dst[k] == after[k];
  }

  // ---------- which lists are accepted ----------

  // A type that passes the test and, stored in 16 unsigned bits, is 0 or 1.
  predicate GoodKind(t: int) { t <= MAX_CORR && ToUInt16(t) <= 1 }

  // A type that passes the test although corr_coef_num[] has no entry for it.
  predicate BadKind(t: int) { t <= MAX_CORR && ToUInt16(t) > 1 }

  // n groups of a type, a precision and as many coefficients as the type takes, and
  // nothing else.  Types and precisions are the numbers last read: a field without a
  // number repeats the type or precision before it, t to begin with.
  predicate Complete(ps: seq<string>, n: int, t: int)
    decreases n
  {
    if n <= 0 then ps == []
    else if |ps| < 2 then false
    else
      var kind := Assign(t, Scan(ps[0]));
      var m := CoefNum(ToUInt16(kind));
      GoodKind(kind) && |ps| - 2 >= m && Complete(ps[2 + m..], n - 1, Assign(kind, Scan(ps[1])))
  }

  // Some complete good groups, fewer than n, and then a bad type with a precision field.
  predicate MeetsBadKind(ps: seq<string>, n: int, t: int)
    decreases n
  {
    if n <= 0 || |ps| < 2 then false
    else
      var kind := Assign(t, Scan(ps[0]));
      var m := CoefNum(ToUInt16(kind));
      || BadKind(kind)
      || (GoodKind(kind) && |ps| - 2 >= m && MeetsBadKind(ps[2 + m..], n - 1, Assign(kind, Scan(ps[1]))))
  }

  lemma {:induction false} OutcomeOfAxes(ps: seq<string>, i: nat, axes: int, t: int, corr: seq<Corr>)
    requires axes <= |corr| && forall c :: c in corr ==> |c.coef| == 8
    ensures SetAxes(ps, i, axes, t, corr).outcome == Accepted <==> Complete(ps, axes - i, t)
    ensures SetAxes(ps, i, axes, t, corr).outcome == Undefined <==> MeetsBadKind(ps, axes - i, t)
    decreases axes - i
  {
    hide Scan;
    if i < axes && |ps| >= 2 {
      var kind := Assign(t, Scan(ps[0]));
      var m := CoefNum(ToUInt16(kind));
      if GoodKind(kind) && |ps| - 2 >= m {
        var t2 := Assign(kind, Scan(ps[1]));
        var c := Corr(ToUInt16(kind), ToInt16(t2), SetCoefs(corr[i].coef, ps[2..], m));
        OutcomeOfAxes(ps[2 + m..], i + 1, axes, t2, corr[i := c]);
      }
    }
  }

  // For every string: accepted exactly when the first field gives the number of axes
  // and that many complete groups follow and nothing else.
  lemma AcceptsExactlyCompleteLists(list: string, axes: int, corr: seq<Corr>)
    requires |corr| == MAX_AXES && forall c :: c in corr ==> |c.coef| == 8
    ensures var ps, n := Pieces(list), Clip(axes);
      SetList(ps, axes, corr).outcome == Accepted <==> Assign(0, Scan(ps[0])) == n && Complete(ps[1..], n, n)
  {
    hide Scan, Pieces, SetAxes, Complete, MeetsBadKind;
    OutcomeOfAxes(Pieces(list)[1..], 0, Clip(axes), Clip(axes), corr);
  }

  // For every string: corr_coef_num[] is read outside its entries exactly when the
  // first field gives the number of axes and a bad type is met after complete groups.
  lemma UndefinedExactlyOnBadKinds(list: string, axes: int, corr: seq<Corr>)
    requires |corr| == MAX_AXES && forall c :: c in corr ==> |c.coef| == 8
    ensures var ps, n := Pieces(list), Clip(axes);
      SetList(ps, axes, corr).outcome == Undefined <==> Assign(0, Scan(ps[0])) == n && MeetsBadKind(ps[1..], n, n)
  {
    hide Scan, Pieces, SetAxes, Complete, MeetsBadKind;
    OutcomeOfAxes(Pieces(list)[1..], 0, Clip(axes), Clip(axes), corr);
  }

  // The fields of the axes from i on, by the types they ended up with.
  function FieldCount(corr: seq<Corr>, i: nat, n: int): nat
    requires n <= |corr|
    decreases n - i
  {
    if i >= n then 0 else 2 + CoefNum(corr[i].kind) + FieldCount(corr, i + 1, n)
  }

  lemma {:induction false} AxesUseTheirFields(ps: seq<string>, i: nat, axes: int, t: int, corr: seq<Corr>)
    requires axes <= |corr| && forall c :: c in corr ==> |c.coef| == 8
    ensures var r := SetAxes(ps, i, axes, t, corr);
      && |r.corr| == |corr|
      && (forall k :: 0 <= k < |corr| && k < i ==> r.corr[k] == corr[k])
      && (r.outcome == Accepted ==> |ps| == FieldCount(r.corr, i, axes))
    decreases axes - i
  {
    hide Scan, SetCoefs;
    if i < axes && |ps| >= 2 {
      var kind := Assign(t, Scan(ps[0]));
      var m := CoefNum(ToUInt16(kind));
      if GoodKind(kind) && |ps| - 2 >= m {
        var t2 := Assign(kind, Scan(ps[1]));
        var c := Corr(ToUInt16(kind), ToInt16(t2), SetCoefs(corr[i].coef, ps[2..], m));
        AxesUseTheirFields(ps[2 + m..], i + 1, axes, t2, corr[i := c]);
      }
    }
  }

  // For every string: an accepted list has the axis count and, for each axis, a type,
  // a precision and the coefficients of the type now set, and no other field.
  lemma AcceptedFieldCount(list: string, axes: int, corr: seq<Corr>)
    requires |corr| == MAX_AXES && forall c :: c in corr ==> |c.coef| == 8
    ensures var r := SetList(Pieces(list), axes, corr);
      && |r.corr| == MAX_AXES
      && (r.outcome == Accepted ==> |Pieces(list)| == 1 + FieldCount(r.corr, 0, Clip(axes)))
  {
    hide Scan, Pieces, SetAxes, FieldCount;
    AxesUseTheirFields(Pieces(list)[1..], 0, Clip(axes), Clip(axes), corr);
  }

  // ---------- what an accepted list sets ----------

  // The entry after an accepted list, from its fields at `at` on: a type of 0 or 1, the
  // precision in 16 bits and, for type 1, four coefficients.  A field without a number
  // stands for the number before it, or leaves the coefficient as it was.
  predicate AxisReads(c: Corr, was: Corr, ps: seq<string>, at: nat, last: int)
  {
    && |c.coef| == |was.coef| == 8 && (c.kind == 0 || c.kind == 1)
    && at + 2 + (if c.kind == 1 then 4 else 0) <= |ps|
    && c.kind == (match Scan(ps[at]) case Some(v) => v case None => last) % 0x1_0000
    && -0x8000 <= c.prec < 0x8000
    && (c.prec - match Scan(ps[at + 1]) case Some(v) => v case None => c.kind) % 0x1_0000 == 0
    && forall j :: 0 <= j < 8 ==>
        c.coef[j] == if c.kind == 1 && j < 4 && Scan(ps[at + 2 + j]).Some? then Scan(ps[at + 2 + j]).value else was.coef[j]
  }

  lemma {:induction false} SetCoefsAt(coef: seq<int>, ps: seq<string>, n: nat, j: nat)
    requires n <= |ps| && n <= |coef| && j < |coef|
    ensures SetCoefs(coef, ps, n)[j] == if j < n && Scan(ps[j]).Some? then Scan(ps[j]).value else coef[j]
  {
    hide Scan;
    if n > 0 {
      SetCoefsAt(coef, ps, n - 1, j);
    }
  }

  lemma FirstAxisReads(ps: seq<string>, was: Corr, t: int)
    requires |was.coef| == 8 && |ps| >= 2
    requires var kind := Assign(t, Scan(ps[0])); GoodKind(kind) && |ps| - 2 >= CoefNum(ToUInt16(kind))
    ensures var kind := Assign(t, Scan(ps[0]));
      var m := CoefNum(ToUInt16(kind));
      AxisReads(Corr(ToUInt16(kind), ToInt16(Assign(kind, Scan(ps[1]))), SetCoefs(was.coef, ps[2..], m)), was, ps, 0, t)
  {
    hide Scan, SetCoefs;
    var kind := Assign(t, Scan(ps[0]));
    var m := CoefNum(ToUInt16(kind));
    forall j | 0 <= j < 8
      ensures SetCoefs(was.coef, ps[2..], m)[j]
           == if j < m && Scan(ps[2 + j]).Some? then Scan(ps[2 + j]).value else was.coef[j]
    {
      SetCoefsAt(was.coef, ps[2..], m, j);
    }
  }

  lemma AxisReadsLater(c: Corr, was: Corr, ps: seq<string>, skip: nat, at: nat, last: int, last': int)
    requires skip <= |ps| && AxisReads(c, was, ps[skip..], at, last) && (last - last') % 0x1_0000 == 0
    ensures AxisReads(c, was, ps, skip + at, last')
  {
    hide Scan;
    var qs := ps[skip..];
    assert forall i :: 0 <= i < |qs| ==> qs[i] == ps[skip + i];
    assert qs[at] == ps[skip + at] && qs[at + 1] == ps[skip + at + 1];
    SameResidue(last, last');
  }

  lemma SameResidue(x: int, y: int)
    requires (x - y) % 0x1_0000 == 0
    ensures x % 0x1_0000 == y % 0x1_0000
  {
  }

  // The number last read before axis k, up to a multiple of 2^16.
  function LastRead(corr: seq<Corr>, i: nat, k: nat, t: int): int
    requires i <= k <= |corr|
  {
    if k == i then t else corr[k - 1].prec
  }

  lemma {:induction false} AxesRead(ps: seq<string>, i: nat, axes: int, t: int, corr: seq<Corr>)
    requires axes <= |corr| && forall c :: c in corr ==> |c.coef| == 8
    ensures var r := SetAxes(ps, i, axes, t, corr);
      r.outcome == Accepted ==>
        && |r.corr| == |corr|
        && (forall k :: 0 <= k < |corr| && (k < i || k >= axes) ==> r.corr[k] == corr[k])
        && (forall k :: i <= k < axes ==>
              AxisReads(r.corr[k], corr[k], ps, FieldCount(r.corr, i, k), LastRead(r.corr, i, k, t)))
    decreases axes - i
  {
    hide Scan, SetCoefs, AxisReads;
    AxesUseTheirFields(ps, i, axes, t, corr);
    var r := SetAxes(ps, i, axes, t, corr);
    if i < axes && r.outcome == Accepted {
      var kind := Assign(t, Scan(ps[0]));
      var m := CoefNum(ToUInt16(kind));
      var t2 := Assign(kind, Scan(ps[1]));
      var c := Corr(ToUInt16(kind), ToInt16(t2), SetCoefs(corr[i].coef, ps[2..], m));
      FirstAxisReads(ps, corr[i], t);
      AxesUseTheirFields(ps[2 + m..], i + 1, axes, t2, corr[i := c]);
      assert r == SetAxes(ps[2 + m..], i + 1, axes, t2, corr[i := c]) && r.corr[i] == c;
      AxesRead(ps[2 + m..], i + 1, axes, t2, corr[i := c]);
      hide SetAxes;
      Int16Residue(t2);
      forall k | i < k < axes
        ensures AxisReads(r.corr[k], corr[k], ps, FieldCount(r.corr, i, k), r.corr[k - 1].prec)
      {
        var at, last := FieldCount(r.corr, i + 1, k), if k == i + 1 then t2 else r.corr[k - 1].prec;
        assert FieldCount(r.corr, i, k) == 2 + m + at;
        AxisReadsLater(r.corr[k], corr[k], ps, 2 + m, at, last, r.corr[k - 1].prec);
      }
      assert FieldCount(r.corr, i, i) == 0;
    }
  }

  lemma Int16Residue(t: int)
    ensures (t - ToInt16(t)) % 0x1_0000 == 0
  {
  }

  // For every accepted list, axis k starts behind the number of axes and the fields of
  // the axes before it, is set by its own fields, and all further axes stay.
  lemma AcceptedListSetsAxes(list: string, axes: int, corr: seq<Corr>)
    requires |corr| == MAX_AXES && forall c :: c in corr ==> |c.coef| == 8
    ensures var ps, n, r := Pieces(list), if axes > 16 then 16 else axes, SetList(Pieces(list), axes, corr);
      r.outcome == Accepted ==>
        && |r.corr| == 16 && n == (match Scan(ps[0]) case Some(v) => v case None => 0)
        && (forall k :: 0 <= k < 16 && k >= n ==> r.corr[k] == corr[k])
        && (forall k :: 0 <= k < n ==>
              AxisReads(r.corr[k], corr[k], ps, 1 + FieldCount(r.corr, 0, k), LastRead(r.corr, 0, k, n)))
  {
    hide Scan, Pieces, SetAxes, FieldCount, AxisReads;
    var ps, n, r := Pieces(list), Clip(axes), SetList(Pieces(list), axes, corr);
    AxesRead(ps[1..], 0, n, n, corr);
    if r.outcome == Accepted {
      assert r == SetAxes(ps[1..], 0, n, n, corr);
      forall k | 0 <= k < n
        ensures AxisReads(r.corr[k], corr[k], ps, 1 + FieldCount(r.corr, 0, k), LastRead(r.corr, 0, k, n))
      {
        var last := LastRead(r.corr, 0, k, n);
        AxisReadsLater(r.corr[k], corr[k], ps, 1, FieldCount(r.corr, 0, k), last, last);
      }
    }
  }

  // ---------- lists of numbers ----------

  ghost predicate Reads(ps: seq<string>, fs: seq<int>)
  {
    |ps| == |fs| && forall k :: 0 <= k < |ps| ==> Scan(ps[k]) == Some(fs[k])
  }

  predicate Shape(fs: seq<int>, n: int)
    decreases n
  {
    if n <= 0 then fs == []
    else
      && |fs| >= 2 && GoodKind(fs[0]) && |fs| - 2 >= CoefNum(ToUInt16(fs[0]))
      && Shape(fs[2 + CoefNum(ToUInt16(fs[0]))..], n - 1)
  }

  predicate ShapeToBadKind(fs: seq<int>, n: int)
    decreases n
  {
    && n > 0 && |fs| >= 2
    && (BadKind(fs[0])
        || (GoodKind(fs[0]) && |fs| - 2 >= CoefNum(ToUInt16(fs[0]))
            && ShapeToBadKind(fs[2 + CoefNum(ToUInt16(fs[0]))..], n - 1)))
  }

  lemma {:induction false} NumbersGiveShape(ps: seq<string>, fs: seq<int>, n: int, t: int)
    requires Reads(ps, fs)
    ensures Complete(ps, n, t) <==> Shape(fs, n)
    ensures MeetsBadKind(ps, n, t) <==> ShapeToBadKind(fs, n)
    decreases n
  {
    hide Scan;
    if n > 0 && |ps| >= 2 && GoodKind(fs[0]) && |fs| - 2 >= CoefNum(ToUInt16(fs[0])) {
      var m := CoefNum(ToUInt16(fs[0]));
      NumbersGiveShape(ps[2 + m..], fs[2 + m..], n - 1, fs[1]);
    }
  }

  // A list of decimal numbers is accepted exactly when it starts with the number of
  // axes and goes on with that many complete groups and nothing else; it is undefined
  // exactly when a negative type in place of a good one is met before that.
  lemma AcceptsExactlyWellFormedLists(list: string, fs: seq<int>, axes: int, corr: seq<Corr>)
    requires Reads(Pieces(list), fs)
    requires |corr| == MAX_AXES && forall c :: c in corr ==> |c.coef| == 8
    ensures fs != []
    ensures SetList(Pieces(list), axes, corr).outcome == Accepted <==> fs[0] == Clip(axes) && Shape(fs[1..], Clip(axes))
    ensures SetList(Pieces(list), axes, corr).outcome == Undefined
       <==> fs[0] == Clip(axes) && ShapeToBadKind(fs[1..], Clip(axes))
  {
    hide Scan, Pieces, SetList, Shape, Complete, MeetsBadKind, ShapeToBadKind;
    AcceptsExactlyCompleteLists(list, axes, corr);
    UndefinedExactlyOnBadKinds(list, axes, corr);
    NumbersGiveShape(Pieces(list)[1..], fs[1..], Clip(axes), Clip(axes));
  }

  // A type that passes the test is bad exactly when it is negative and not one of
  // those that 16 bits turn into 0 or 1.
  lemma BadKindsAreNegative(t: int)
    ensures BadKind(t) <==> t < 0 && t % 0x1_0000 != 0 && t % 0x1_0000 != 1
  {
  }

  // For one axis, type -1 is such a list.
  lemma NegativeTypeIsUndefined(corr: seq<Corr>)
    requires |corr| == MAX_AXES && forall c :: c in corr ==> |c.coef| == 8
    ensures SetList(Pieces("1,-1,0"), 1, corr).outcome == Undefined
  {
    hide Pieces, Scan, Decimal, SetList;
    NegativeTypeFields();
    AcceptsExactlyWellFormedLists("1,-1,0", [1, -1, 0], 1, corr);
    assert [1, -1, 0][1..] == [-1, 0];
    assert ShapeToBadKind([-1, 0], 1);
  }

  lemma NegativeTypeFields()
    ensures Reads(Pieces("1,-1,0"), [1, -1, 0])
  {
    assert Decimal(1) == "1" && Decimal(-1) == "-1" && Decimal(0) == "0";
    hide Pieces, Scan, Decimal;
    DecimalScans(1);
    DecimalScans(-1);
    DecimalScans(0);
    NoCommaPieces("1");
    PiecesAppend("1", "-1");
    PiecesAppend("1,-1", "0");
    assert "1" + [','] + "-1" == "1,-1";
    assert "1,-1" + [','] + "0" == "1,-1,0";
  }

  // A field without a number keeps the last one, so a list that is not one of
  // numbers can be accepted too.
  lemma EmptyFieldsAreAccepted(corr: seq<Corr>)
    requires |corr| == MAX_AXES && forall c :: c in corr ==> |c.coef| == 8
    ensures SetList(Pieces("1,,,,,,"), 1, corr).outcome == Accepted
  {
    assert Decimal(1) == "1";
    DecimalScans(1);
    assert Scan("") == None;
    SixEmptyFields();
    hide Scan, Pieces;
    var ps := ["", "", "", "", "", ""];
    assert (["1"] + ps)[1..] == ps;
    assert ps[2 + 4..] == [];
  }

  lemma SixEmptyFields()
    ensures Pieces("1,,,,,,") == ["1"] + ["", "", "", "", "", ""]
  {
    hide Pieces;
    NoCommaPieces("1");
    PiecesAppend("1", "");
    assert "1" + [','] + "" == "1,";
    PiecesAppend("1,", "");
    assert "1," + [','] + "" == "1,,";
    PiecesAppend("1,,", "");
    assert "1,," + [','] + "" == "1,,,";
    PiecesAppend("1,,,", "");
    assert "1,,," + [','] + "" == "1,,,,";
    PiecesAppend("1,,,,", "");
    assert "1,,,," + [','] + "" == "1,,,,,";
    PiecesAppend("1,,,,,", "");
    assert "1,,,,," + [','] + "" == "1,,,,,,";
  }
}
