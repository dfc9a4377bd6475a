/**
 * The text form of the selection trace. While a gesture is in progress the
 * widget appends each newly selected cell index followed by a comma to a
 * string buffer ("0,1,4,"). To render, it splits the text at the commas with
 * Java's String.split (which drops trailing empty fields, but returns the
 * whole input when there is no comma at all) and reads every field back
 * with Integer.valueOf.
 */
module TraceText {
  import opened Layout

  datatype Option<T> = None | Some(value: T)

  /** The decimal digit that StringBuffer.append(int) writes for a cell index. */
  function Digit(i: CellIndex): (c: char)
    ensures '0' <= c <= '8'
  {
    (('0' as int) + i) as char
  }

  /** The buffer text after appending index and "," for every index of t, in order. */
  function Encode(t: seq<CellIndex>): (s: string)
    ensures |s| == 2 * |t|
    ensures t != [] ==> ',' in s
  {
    if t == [] then [] else [Digit(t[0]), ','] + Encode(t[1..])
  }

  /** Appending one index to the trace appends its digit and a comma to the text. */
  lemma {:induction false} EncodeAppend(t: seq<CellIndex>, i: CellIndex)
    ensures Encode(t + [i]) == Encode(t) + [Digit(i), ',']
  {
    if t != [] {
      assert (t + [i])[1..] == t[1..] + [i];
      EncodeAppend(t[1..], i);
    }
  }

  /** The text is empty exactly when the trace is. */
  lemma EncodeEmpty(t: seq<CellIndex>)
    ensures Encode(t) == [] <==> t == []
  {
  }

  /** The fields of s between commas, empty ones included. */
  function Fields(s: string): (fs: seq<string>)
    ensures |fs| >= 1
    ensures ',' !in s ==> fs == [s]
    ensures forall k :: 0 <= k < |fs| ==> ',' !in fs[k]
  {
    if s == [] then [[]]
    else
      var rest := Fields(s[1..]);
      assert s == [s[0]] + s[1..];
      if s[0] == ',' then [[]] + rest else [[s[0]] + rest[0]] + rest[1..]
  }

  /** Removes every empty field at the end of fs. */
  function DropTrailingEmpty(fs: seq<string>): (r: seq<string>)
    ensures |r| <= |fs| && r == fs[..|r|]
    ensures r == [] || r[|r| - 1] != []
    ensures forall k :: |r| <= k < |fs| ==> fs[k] == []
  {
    if fs != [] && fs[|fs| - 1] == [] then DropTrailingEmpty(fs[..|fs| - 1]) else fs
  }

  /**
   * String.split(",") with its default limit: no field holds a comma, text
   * without a comma comes back whole, and the result never ends in an empty
   * field unless it is that whole (empty) text.
   */
  function Split(s: string): (fs: seq<string>)
    ensures forall k :: 0 <= k < |fs| ==> ',' !in fs[k]
    ensures ',' !in s ==> fs == [s]
    ensures ',' in s ==> fs == [] || fs[|fs| - 1] != []
  {
    if ',' !in s then [s] else DropTrailingEmpty(Fields(s))
  }

  predicate IsDigit(c: char)
  {
    '0' <= c <= '9'
  }

  /** The value of a string of decimal digits. */
  function DecimalValue(f: string): (v: nat)
    requires forall k :: 0 <= k < |f| ==> IsDigit(f[k])
  {
    if f == [] then 0
    else
      assert IsDigit(f[|f| - 1]);
      10 * DecimalValue(f[..|f| - 1]) + (f[|f| - 1] as int - '0' as int)
  }

  /**
   * Integer.valueOf on an unsigned decimal field; None where Java throws
   * NumberFormatException (an empty field or a non-digit character).
   */
  function ValueOf(f: string): (r: Option<int>)
    ensures r.Some? <==> f != [] && forall k :: 0 <= k < |f| ==> IsDigit(f[k])
    ensures r.Some? ==> r.value >= 0
  {
    if f != [] && forall k :: 0 <= k < |f| ==> IsDigit(f[k]) then Some(DecimalValue(f)) else None
  }

  /**
   * The cell indices named by fs, in order; None where the drawing code
   * would throw (a field that is not a number, or a number that is not an
   * index into the nine-cell array).
   */
  function ParseFields(fs: seq<string>): (r: Option<seq<CellIndex>>)
    ensures r.Some? ==> |r.value| == |fs|
  {
    if fs == [] then Some([])
    else
      match ValueOf(fs[0])
      case None => None
      case Some(v) =>
        if 0 <= v < 9 then
          match ParseFields(fs[1..])
          case None => None
          case Some(rest) => Some([v as CellIndex] + rest)
        else None
  }

  /**
   * Splits the buffer text at the commas and reads back each index: one
   * index per field, and never an empty list, since the drawing code reads
   * the first field unconditionally (text of commas alone splits into no
   * fields at all). The empty text never parses.
   */
  function Parse(s: string): (r: Option<seq<CellIndex>>)
    ensures r.Some? ==> |r.value| == |Split(s)|
    ensures r.Some? ==> r.value != []
    ensures s == [] ==> r == None
  {
    var fs := Split(s);
    if fs == [] then None else ParseFields(fs)
  }

  /** One single-digit field per index of t. */
  function DigitFields(t: seq<CellIndex>): (fs: seq<string>)
    ensures |fs| == |t|
    ensures forall k :: 0 <= k < |t| ==> fs[k] == [Digit(t[k])]
  {
    seq(|t|, k requires 0 <= k < |t| => [Digit(t[k])])
  }

  /** A non-comma character followed by a comma starts a field of its own. */
  lemma FieldsCharComma(c: char, r: string)
    requires c != ','
    ensures Fields([c, ','] + r) == [[c]] + Fields(r)
  {
    var s := [c, ','] + r;
    assert s[1..] == [','] + r;
    assert s[1..][1..] == r;
    var rest := Fields(s[1..]);
    assert rest == [[]] + Fields(r);
    assert [c] + rest[0] == [c];
  }

  /** Cutting the text of t at every comma gives one field per index, then a final empty field. */
  lemma {:induction false} FieldsEncode(t: seq<CellIndex>)
    ensures Fields(Encode(t)) == DigitFields(t) + [[]]
  {
    if t != [] {
      FieldsCharComma(Digit(t[0]), Encode(t[1..]));
      FieldsEncode(t[1..]);
      assert DigitFields(t) == [[Digit(t[0])]] + DigitFields(t[1..]);
    }
  }

  /** Reading back single-digit fields recovers the indices they were written from. */
  lemma {:induction false} ParseDigitFields(t: seq<CellIndex>)
    ensures ParseFields(DigitFields(t)) == Some(t)
  {
    if t != [] {
      var fs := DigitFields(t);
      assert fs[1..] == DigitFields(t[1..]);
      assert DecimalValue(fs[0]) == t[0] by {
        assert fs[0][..0] == [];
      }
      ParseDigitFields(t[1..]);
      assert [t[0]] + t[1..] == t;
    }
  }

  /**
   * Round trip: splitting a non-empty buffer at the commas, dropping the
   * trailing empty field, and reading every field gives back exactly the
   * appended indices in order.
   */
  lemma {:induction false} ParseEncode(t: seq<CellIndex>)
    requires t != []
    ensures Split(Encode(t)) == DigitFields(t)
    ensures Parse(Encode(t)) == Some(t)
  {
    FieldsEncode(t);
    var fs := DigitFields(t) + [[]];
    var r := DropTrailingEmpty(fs);
    assert r == fs[..|r|];
    assert fs[|t| - 1] != [] && fs[|t|] == [];
    assert |r| == |t|;
    assert r == DigitFields(t);
    ParseDigitFields(t);
  }

  /**
   * The empty buffer does not survive the same parse: with no comma the
   * split yields one empty field, which Integer.valueOf rejects. This is
   * why drawing checks for the empty buffer before splitting it.
   */
  lemma ParseEmptyFails()
    ensures Split(Encode([])) == [[]]
    ensures Parse(Encode([])) == None
  {
  }

  /**
   * Text made only of commas splits into no fields at all, so reading its
   * first field fails; such text does not parse.
   */
  lemma CommasOnlyFail(n: nat)
    requires n > 0
    ensures Split(seq(n, _ => ',')) == []
    ensures Parse(seq(n, _ => ',')) == None
  {
    AllEmptyFields(n);
  }

  /** Cutting n commas gives n + 1 empty fields. */
  lemma {:induction false} AllEmptyFields(n: nat)
    ensures Fields(seq(n, _ => ',')) == seq(n + 1, _ => "")
  {
    if n > 0 {
      var s := seq(n, _ => ',');
      assert s[1..] == seq(n - 1, _ => ',');
      AllEmptyFields(n - 1);
      assert seq(n + 1, _ => "") == [""] + seq(n, _ => "");
    }
  }
}
