// Reading and writing the comma-separated reference data of the benchmarks.
// A file is seen through the outcomes of the successive `fscanf` conversions
// made on it: Some(value) for a token read, None for a failed conversion or
// the end of the file.

module Csv {
  import opened Wrappers
  import opened ScanPlan

  const EINVAL: int := 22

  /** The number of conversions that succeed before the first one that fails. */
  function LeadingTokens<T>(conv: seq<Option<T>>): (n: nat)
    ensures n <= |conv|
    ensures forall j :: 0 <= j < n ==> conv[j].Some?
    ensures n < |conv| ==> conv[n].None?
  {
    if |conv| == 0 || conv[0].None? then 0
    else
      var n := 1 + LeadingTokens(conv[1..]);
      assert forall j :: 1 <= j < n ==> conv[j] == conv[1..][j - 1];
      n
  }

  function Min(a: nat, b: nat): nat
  {
    if a <= b then a else b
  }

  /**
   * `csv_file_count`: -EINVAL for a file that cannot be opened, otherwise the
   * number of leading `%f` tokens.
   */
  function CsvFileCount(file: Option<seq<Option<real>>>): (c: int)
    ensures file.None? <==> c < 0
    ensures file.Some? ==> c == LeadingTokens(file.value)
  {
    if file.None? then -EINVAL else LeadingTokens(file.value)
  }

  /**
   * The read loop of `csv_file_read` and `csv_file_read_float`: at most count
   * conversions, each stored at the next position, stopping at the first
   * that fails; returns the number stored.
   */
  method ReadTokens<T>(count: nat, conv: seq<Option<T>>, buf: array<T>) returns (i: nat)
    requires count <= buf.Length
    modifies buf
    ensures i == Min(count, LeadingTokens(conv))
    ensures forall j :: 0 <= j < i ==> conv[j].Some? && buf[j] == conv[j].value
    ensures forall j :: i <= j < buf.Length ==> buf[j] == old(buf[j])
  {
    i := 0;
    while i < count
      invariant i <= count && i <= LeadingTokens(conv)
      invariant forall j :: 0 <= j < i ==> conv[j].Some? && buf[j] == conv[j].value
      invariant forall j :: i <= j < buf.Length ==> buf[j] == old(buf[j])
    {
      if i >= |conv| || conv[i].None? {
        break;
      }
      buf[i] := conv[i].value;
      i := i + 1;
    }
  }

  /** Host calls whose failure ends a read early: the buffer allocation, or reopening the file. */
  datatype ReadFault = AllocFails | ReopenFails

  /**
   * `csv_file_read`: `file` is what the counting pass with `%f` sees, `ints`
   * the `%d` conversions of the second pass over the reopened file.
   * Returns -1 when the file cannot be opened or the buffer not allocated,
   * -EINVAL when the reopening fails, and otherwise the number of integers stored.
   */
  method CsvFileRead(file: Option<seq<Option<real>>>, ints: seq<Option<int>>, fault: Option<ReadFault>)
    returns (r: int, buf: array?<int>)
    ensures r == -1 <==> file.None? || fault == Some(AllocFails)
    ensures r == -EINVAL <==> file.Some? && fault == Some(ReopenFails)
    ensures r >= 0 <==> file.Some? && fault.None?
    ensures file.Some? && fault != Some(AllocFails) ==> buf != null && fresh(buf) && buf.Length == CsvFileCount(file)
    ensures r >= 0 ==>
              r == Min(CsvFileCount(file), LeadingTokens(ints)) &&
              forall j :: 0 <= j < r ==> ints[j].Some? && buf[j] == ints[j].value
  {
    var count := CsvFileCount(file);
    if count < 0 {
      return -1, null;
    }
    if fault.Some? && fault.value.AllocFails? {
      return -1, null;
    }
    buf := new int[count];
    if fault.Some? && fault.value.ReopenFails? {
      return -EINVAL, buf;
    }
    r := ReadTokens(count, ints, buf);
  }

  /**
   * `csv_file_read_float`: as `csv_file_read`, with `%f` in both passes, so a
   * reread of the same file stores every token the count saw.
   */
  method CsvFileReadFloat(file: Option<seq<Option<real>>>, floats: seq<Option<real>>, fault: Option<ReadFault>)
    returns (r: int, buf: array?<real>)
    ensures r == -1 <==> file.None? || fault == Some(AllocFails)
    ensures r == -EINVAL <==> file.Some? && fault == Some(ReopenFails)
    ensures r >= 0 <==> file.Some? && fault.None?
    ensures file.Some? && fault != Some(AllocFails) ==> buf != null && fresh(buf) && buf.Length == CsvFileCount(file)
    ensures r >= 0 ==>
              r == Min(CsvFileCount(file), LeadingTokens(floats)) &&
              forall j :: 0 <= j < r ==> floats[j].Some? && buf[j] == floats[j].value
    ensures r >= 0 && floats == file.value ==> r == CsvFileCount(file)
  {
    var count := CsvFileCount(file);
    if count < 0 {
      return -1, null;
    }
    if fault.Some? && fault.value.AllocFails? {
      return -1, null;
    }
    buf := new real[count];
    if fault.Some? && fault.value.ReopenFails? {
      return -EINVAL, buf;
    }
    r := ReadTokens(count, floats, buf);
  }

  // ------------------------------------------------------------------ struct-of-arrays reading

  /** Where token i goes when count tokens are read as n columns of count / n: column i mod n, row i div n. */
  function Slot(i: nat, n: nat, count: nat): (s: nat)
    requires n >= 1 && count % n == 0 && i < count
    ensures s < count
  {
    SlotInRange(i, n, count / n);
    ColumnStart(i % n, count / n) + i / n
  }

  /** Where column k of columns q floats long begins. */
  function ColumnStart(k: nat, q: nat): nat
  {
    k * q
  }

  /**
   * Token i of n * q sits in row i / n < q of column i % n, inside the buffer,
   * and the column and row can be read back from the place.
   */
  lemma SlotInRange(i: nat, n: nat, q: nat)
    requires n >= 1 && i < n * q
    ensures i / n < q
    ensures ColumnStart(i % n, q) + i / n < n * q
    ensures (ColumnStart(i % n, q) + i / n) / q == i % n
    ensures (ColumnStart(i % n, q) + i / n) % q == i / n
  {
    var a, b := i % n, i / n;
    DivBelow(i, n, q - 1) by {
      assert (q - 1 + 1) * n == n * q;
    }
    RowBelow(a, n, q);
    DivPlusSmall(a, q, b);
  }

  /** A whole block of c past the a-th still fits in b blocks when a < b. */
  lemma RowBelow(a: nat, b: nat, c: nat)
    requires a < b
    ensures a * c + c <= b * c
  {
    MulStep(c, a + 1, b - 1 - a);
    MulStep(c, a, 1);
  }

  /** Distinct tokens land in distinct places. */
  lemma SlotInjective(i: nat, j: nat, n: nat, count: nat)
    requires n >= 1 && count % n == 0 && i < count && j < count
    requires Slot(i, n, count) == Slot(j, n, count)
    ensures i == j
  {
    var q := count / n;
    assert count == n * q;
    SlotInRange(i, n, q);
    SlotInRange(j, n, q);
    assert i % n == j % n && i / n == j / n;
  }

  /** Place s of the buffer is row s % q of column s / q, which is where token (s % q) * n + s / q goes. */
  lemma UnsplitIndex(s: nat, n: nat, q: nat)
    requires n >= 1 && q >= 1 && s < n * q
    ensures (s % q) * n + s / q < n * q
    ensures ((s % q) * n + s / q) % n == s / q && ((s % q) * n + s / q) / n == s % q
    ensures ColumnStart(s / q, q) + s % q == s
  {
    DivBelow(s, q, n - 1) by {
      assert (n - 1 + 1) * q == n * q;
    }
    RowBelow(s % q, q, n);
    DivPlusSmall(s % q, n, s / q);
  }

  /** Every place of the buffer receives some token. */
  lemma SlotOnto(s: nat, n: nat, count: nat) returns (i: nat)
    requires n >= 1 && count % n == 0 && s < count
    ensures i < count && Slot(i, n, count) == s
  {
    var q := count / n;
    assert count == n * q;
    assert q >= 1;
    UnsplitIndex(s, n, q);
    i := (s % q) * n + s / q;
  }

  /**
   * Column k of the n column pointers starts k * (count / n) floats into the
   * one buffer: the columns lie side by side, each count / n long, and
   * together cover the buffer.
   */
  lemma ColumnsTile(count: nat, n: nat, s: nat)
    requires n >= 1 && count % n == 0 && s < count
    ensures s / (count / n) < n
    ensures ColumnStart(s / (count / n), count / n) <= s < ColumnStart(s / (count / n), count / n) + count / n
    ensures forall k :: 0 <= k < n && ColumnStart(k, count / n) <= s < ColumnStart(k, count / n) + count / n ==>
              k == s / (count / n)
  {
    var q := count / n;
    assert count == n * q;
    assert q >= 1;
    DivBelow(s, q, n - 1) by {
      assert (n - 1 + 1) * q == count;
    }
    assert s == (s / q) * q + s % q;
    forall k | 0 <= k < n && ColumnStart(k, q) <= s < ColumnStart(k, q) + q
      ensures k == s / q
    {
      DivModUnique(q, k, s - k * q, s / q, s % q);
    }
  }

  /** Column k's start, `(*buf)[0] + k * (count / n)`, for every k < n. */
  method ColumnStarts(count: nat, n: nat) returns (cols: array<nat>)
    requires n >= 1
    ensures fresh(cols) && cols.Length == n
    ensures forall k :: 0 <= k < n ==> cols[k] == ColumnStart(k, count / n)
  {
    cols := new nat[n];
    cols[0] := 0;
    var i := 1;
    while i < n
      invariant 1 <= i <= n
      invariant forall k :: 0 <= k < i ==> cols[k] == ColumnStart(k, count / n)
    {
      cols[i] := ColumnStart(i, count / n);
      i := i + 1;
    }
  }

  /** Host calls whose failure ends `csv_file_read_float_n` early. */
  datatype ReadNFault = PointersFail | BufferFails | ReopenNFails

  /**
   * `csv_file_read_float_n(file, n, &buf)`: reads n-tuples into n column arrays
   * carved out of one buffer. -1 when the file cannot be opened, the token
   * count is not a multiple of n, or an allocation fails; -EINVAL when the
   * reopening fails; otherwise the number of whole tuples stored.
   */
  method CsvFileReadFloatN(file: Option<seq<Option<real>>>, n: nat, floats: seq<Option<real>>,
                           fault: Option<ReadNFault>)
    returns (r: int, cols: array?<nat>, buf: array?<real>)
    requires n >= 1
    ensures r == -1 <==>
              file.None? || CsvFileCount(file) % n != 0 || fault == Some(PointersFail) || fault == Some(BufferFails)
    ensures r == -EINVAL <==>
              file.Some? && CsvFileCount(file) % n == 0 && fault == Some(ReopenNFails)
    ensures r >= 0 ==>
              cols != null && buf != null && fresh(cols) && fresh(buf) &&
              buf.Length == CsvFileCount(file) && cols.Length == n &&
              (forall k :: 0 <= k < n ==> cols[k] == ColumnStart(k, CsvFileCount(file) / n)) &&
              r == Min(CsvFileCount(file), LeadingTokens(floats)) / n &&
              (forall i :: 0 <= i < Min(CsvFileCount(file), LeadingTokens(floats)) ==>
                 floats[i].Some? && buf[Slot(i, n, CsvFileCount(file))] == floats[i].value)
    ensures r >= 0 && floats == file.value ==> r == CsvFileCount(file) / n
  {
    var count := CsvFileCount(file);
    if count < 0 {
      return -1, null, null;
    }
    if count % n != 0 {
      return -1, null, null;
    }
    if fault.Some? && fault.value.PointersFail? {
      return -1, null, null;
    }
    if fault.Some? && fault.value.BufferFails? {
      return -1, null, null;
    }
    buf := new real[count];
    cols := ColumnStarts(count, n);
    if fault.Some? && fault.value.ReopenNFails? {
      return -EINVAL, cols, buf;
    }
    var stored := ScatterTokens(count, n, floats, cols, buf);
    r := stored / n;
  }

  /**
   * The read loop of `csv_file_read_float_n`: token i goes to row i / n of
   * column i % n; stops at the first failed conversion and returns the
   * number of tokens stored.
   */
  method ScatterTokens(count: nat, n: nat, floats: seq<Option<real>>, cols: array<nat>, buf: array<real>)
    returns (i: nat)
    requires n >= 1 && count % n == 0 && buf.Length == count && cols.Length == n
    requires forall k :: 0 <= k < n ==> cols[k] == ColumnStart(k, count / n)
    modifies buf
    ensures i == Min(count, LeadingTokens(floats))
    ensures forall j :: 0 <= j < i ==> floats[j].Some? && buf[Slot(j, n, count)] == floats[j].value
  {
    i := 0;
    while i < count
      invariant i <= count && i <= LeadingTokens(floats)
      invariant forall j :: 0 <= j < i ==> floats[j].Some? && buf[Slot(j, n, count)] == floats[j].value
    {
      if i >= |floats| || floats[i].None? {
        break;
      }
      forall j | 0 <= j < i
        ensures Slot(j, n, count) != Slot(i, n, count)
      {
        if Slot(j, n, count) == Slot(i, n, count) {
          SlotInjective(j, i, n, count);
        }
      }
      buf[cols[i % n] + i / n] := floats[i].value;
      i := i + 1;
    }
  }

  // ------------------------------------------------------------------ writing

  /** The fields one after another, each after the first preceded by ", ". */
  function Join(fields: seq<string>): (r: string)
    ensures |fields| >= 1 ==> fields[0] <= r
  {
    if |fields| == 0 then ""
    else if |fields| == 1 then fields[0]
    else fields[0] + ", " + Join(fields[1..])
  }

  lemma {:induction false} JoinSnoc(fields: seq<string>, x: string)
    requires |fields| >= 1
    ensures Join(fields + [x]) == Join(fields) + ", " + x
  {
    var f := fields + [x];
    assert f[0] == fields[0];
    if |fields| > 1 {
      assert f[1..] == fields[1..] + [x];
      JoinSnoc(fields[1..], x);
      assert Join(f) == fields[0] + ", " + Join(f[1..]);
    } else {
      assert f[1..] == [x];
    }
  }

  function Formatted(fmt: real -> string, buf: seq<real>): (fields: seq<string>)
    ensures |fields| == |buf|
    ensures forall i :: 0 <= i < |buf| ==> fields[i] == fmt(buf[i])
  {
    seq(|buf|, i requires 0 <= i < |buf| => fmt(buf[i]))
  }

  /**
   * `csv_file_write(file, n, buf)`: `fmt` is the `%.4f` conversion and
   * `opens` whether the file can be opened for writing. Returns false without
   * writing for n == 0 or an unopenable file, else the text written.
   */
  method CsvFileWrite(n: nat, buf: seq<real>, fmt: real -> string, opens: bool)
    returns (ok: bool, text: string)
    requires n <= |buf|
    ensures ok <==> n > 0 && opens
    ensures !ok ==> text == ""
    ensures ok ==> text == Join(Formatted(fmt, buf[..n]))
  {
    if n == 0 {
      return false, "";
    }
    if !opens {
      return false, "";
    }
    text := fmt(buf[0]);
    var i := 1;
    while i < n
      invariant 1 <= i <= n
      invariant text == Join(Formatted(fmt, buf[..i]))
    {
      assert Formatted(fmt, buf[..i + 1]) == Formatted(fmt, buf[..i]) + [fmt(buf[i])];
      JoinSnoc(Formatted(fmt, buf[..i]), fmt(buf[i]));
      text := text + ", " + fmt(buf[i]);
      i := i + 1;
    }
    ok := true;
  }

  function IndexOfComma(s: string): (k: nat)
    requires ',' in s
    ensures k < |s| && s[k] == ',' && ',' !in s[..k]
    ensures forall j :: 0 <= j < k ==> s[j] != ','
  {
    if s[0] == ',' then 0
    else
      var k := 1 + IndexOfComma(s[1..]);
      assert s[..k] == [s[0]] + s[1..][..k - 1];
      k
  }

  /** Reads the fields back: split at each comma and drop one space after it. */
  function Fields(text: string): (fields: seq<string>)
    ensures |fields| >= 1
    ensures forall i :: 0 <= i < |fields| ==> ',' !in fields[i]
    decreases |text|
  {
    if ',' !in text then [text]
    else
      var k := IndexOfComma(text);
      var rest := text[k + 1..];
      [text[..k]] + Fields(if |rest| > 0 && rest[0] == ' ' then rest[1..] else rest)
  }

  /** The first comma of a comma-free field followed by the separator is the separator's. */
  lemma FirstComma(a: string, b: string)
    requires ',' !in a
    ensures ',' in a + ", " + b && IndexOfComma(a + ", " + b) == |a|
  {
    var s := a + ", " + b;
    assert s[|a|] == ',';
    assert s[..|a|] == a;
    var k := IndexOfComma(s);
    assert forall j :: 0 <= j < |a| ==> s[j] == a[j];
  }

  /** A comma-free field and the separator come back as that field and the rest. */
  lemma FieldsAfterField(a: string, b: string)
    requires ',' !in a
    ensures Fields(a + ", " + b) == [a] + Fields(b)
  {
    var s := a + ", " + b;
    FirstComma(a, b);
    assert s[..|a|] == a;
    var rest := s[|a| + 1..];
    assert rest == " " + b;
    assert rest[1..] == b;
  }

  /** Splitting a join of comma-free fields gives the fields back. */
  lemma {:induction false} FieldsJoin(fields: seq<string>)
    requires |fields| >= 1
    requires forall i :: 0 <= i < |fields| ==> ',' !in fields[i]
    ensures Fields(Join(fields)) == fields
  {
    if |fields| > 1 {
      var tail := Join(fields[1..]);
      FieldsJoin(fields[1..]);
      FieldsAfterField(fields[0], tail);
      assert fields == [fields[0]] + fields[1..];
    }
  }

  predicate CommaFree(s: string)
  {
    ',' !in s
  }

  /** Whatever `%.4f` prints contains no comma, so the written file reads back field by field. */
  lemma WriteReadsBack(n: nat, buf: seq<real>, fmt: real -> string)
    requires 1 <= n <= |buf|
    requires forall x :: CommaFree(fmt(x))
    ensures Fields(Join(Formatted(fmt, buf[..n]))) == Formatted(fmt, buf[..n])
  {
    var f := Formatted(fmt, buf[..n]);
    forall i | 0 <= i < |f|
      ensures ',' !in f[i]
    {
      var x := buf[..n][i];
      assert f[i] == fmt(x);
      assert CommaFree(fmt(x));
    }
    FieldsJoin(f);
  }
}
