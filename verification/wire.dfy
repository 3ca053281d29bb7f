/**
  The device's wire frame: `<`, the 96 brightness values in column-major order
  as decimal text separated by commas, then `>`.
 */
module Wire {
  import opened Options
  import opened Text
  import opened Matrix

  /** The decimal fields of a frame, in the order the device expects them. */
  function Fields(m: seq<seq<int>>): (fields: seq<string>)
    requires IsGrid(m)
    ensures |fields| == CellCount
    ensures forall r, c :: InGrid(r, c) ==> fields[c * Rows + r] == Str(m[r][c])
  {
    var values := ColumnMajor(m);
    seq(CellCount, k requires 0 <= k < CellCount => Str(values[k]))
  }

  /** The fields before position `c * Rows + r`, then the field of cell (r, c). */
  lemma FieldsStep(m: seq<seq<int>>, r: int, c: int)
    requires IsGrid(m) && InGrid(r, c)
    ensures c * Rows + r < CellCount
    ensures Fields(m)[..c * Rows + r] + [Str(m[r][c])] == Fields(m)[..c * Rows + r + 1]
  {
    ColumnMajorPosition(r, c);
    var fields := Fields(m);
    var k := c * Rows + r;
    assert fields[k] == Str(m[r][c]);
    SliceStep(fields, k);
  }

  lemma SliceStep<T>(s: seq<T>, k: int)
    requires 0 <= k < |s|
    ensures s[..k] + [s[k]] == s[..k + 1]
  {
  }

  /**
    The text `send_matrix` transmits for the brightness matrix `m`: `<`, the 96
    fields separated by exactly 95 commas, then `>`. Splitting the text between
    the delimiters gives back exactly the fields.
   */
  function Frame(m: seq<seq<int>>): (t: string)
    requires IsGrid(m)
    ensures |t| >= 2 && t[0] == '<' && t[|t| - 1] == '>'
    ensures Count(t, ',') == CellCount - 1
    ensures Split(t[1..|t| - 1], ',') == Fields(m)
  {
    var inner := Join(Fields(m), ',');
    var t := "<" + inner + ">";
    assert t[1..|t| - 1] == inner;
    FieldsFree(m);
    SplitJoin(Fields(m), ',');
    CountJoin(Fields(m), ',');
    CountAppend("<" + inner, ">", ',');
    CountAppend("<", inner, ',');
    assert Count("<", ',') == 0 && Count(">", ',') == 0 by {
      assert "<"[1..] == [] && ">"[1..] == [];
    }
    t
  }

  /** What the receiving device reads back: the comma-separated integers between `<` and `>`. */
  function Decode(t: string): (values: Option<seq<int>>)
    ensures values.Some? ==> |t| >= 2 && t[0] == '<' && t[|t| - 1] == '>'
  {
    if |t| >= 2 && t[0] == '<' && t[|t| - 1] == '>' then
      var fields := Split(t[1..|t| - 1], ',');
      Some(seq(|fields|, k requires 0 <= k < |fields| => ParseInt(fields[k])))
    else
      None
  }

  lemma FieldsFree(m: seq<seq<int>>)
    requires IsGrid(m)
    ensures forall k :: 0 <= k < CellCount ==> Free(Fields(m)[k], ',')
  {
    var fields := Fields(m);
    var values := ColumnMajor(m);
    forall k | 0 <= k < CellCount ensures Free(fields[k], ',') {
      StrFree(values[k], ',');
    }
  }

  /** Decoding a frame recovers the matrix in column-major order. */
  lemma DecodeFrame(m: seq<seq<int>>)
    requires IsGrid(m)
    ensures Decode(Frame(m)) == Some(ColumnMajor(m))
  {
    var t := Frame(m);
    var fields := Fields(m);
    var values := ColumnMajor(m);
    forall k | 0 <= k < CellCount ensures ParseInt(fields[k]) == values[k] {
      ParseStr(values[k]);
    }
    var decoded := seq(|fields|, k requires 0 <= k < |fields| => ParseInt(fields[k]));
    assert decoded == values;
  }

  function Repeat(s: string, n: nat): string
    decreases n
  {
    if n == 0 then "" else s + Repeat(s, n - 1)
  }

  lemma {:induction false} JoinZeros(parts: seq<string>)
    requires |parts| >= 1
    requires forall k :: 0 <= k < |parts| ==> parts[k] == "0"
    ensures Join(parts, ',') == Repeat("0,", |parts| - 1) + "0"
    decreases |parts|
  {
    if |parts| > 1 {
      JoinZeros(parts[1..]);
    }
  }

  /** The frame of an all-zero matrix: `<`, 95 times `0,`, then `0>`. */
  lemma DarkFrame(m: seq<seq<int>>)
    requires IsGrid(m)
    requires forall r, c :: InGrid(r, c) ==> m[r][c] == 0
    ensures Frame(m) == "<" + Repeat("0,", CellCount - 1) + "0>"
  {
    var fields := Fields(m);
    var values := ColumnMajor(m);
    forall k | 0 <= k < CellCount ensures fields[k] == "0" {
      var r, c := k % Rows, k / Rows;
      assert k == c * Rows + r;
      assert values[k] == 0;
    }
    JoinZeros(fields);
  }
}
