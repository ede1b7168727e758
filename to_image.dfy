/** The reshaping loop of `to_image.py`: a raw camera dump, read from a file
    as one byte string, is cut into 1187 rows of 14 RGB pixels, each row a
    flat tuple of 42 channel values, ready for a PNG writer of width 14 and
    height 1187. */
module ToImage {

  /** A Python 2 `str` holds bytes: `ord` of one of its characters is in 0..255. */
  newtype Byte = b: int | 0 <= b < 256

  const Width := 14
  const Height := 1187
  const Channels := 3
  /** Values per row: 14 pixels of 3 channels. */
  const RowLength := Width * Channels
  /** Bytes the loop reads: 1187 rows of 42. */
  const BytesRead := Height * RowLength

  /** The list of rows the loop builds, or the `IndexError` raised when the
      input is too short. */
  datatype Reshaped = Rows(rows: seq<seq<int>>) | IndexError

  /** `ord` applied to every byte. */
  function Ords(bytes: seq<Byte>): (values: seq<int>)
    ensures |values| == |bytes|
    ensures forall i :: 0 <= i < |bytes| ==> values[i] == bytes[i] as int && 0 <= values[i] < 256
  {
    seq(|bytes|, i requires 0 <= i < |bytes| => bytes[i] as int)
  }

  /** The first `n` pixels of the row that starts at byte `start`, three
      channel values per pixel, as the inner loop appends them. */
  function RowPrefix(contents: seq<Byte>, start: nat, n: nat): seq<int>
    requires start + Channels * n <= |contents|
  {
    if n == 0 then []
    else
      var colIdx := Channels * (n - 1);
      RowPrefix(contents, start, n - 1)
        + [contents[start + colIdx] as int, contents[start + colIdx + 1] as int, contents[start + colIdx + 2] as int]
  }

  /** The first `n` rows, as the outer loop appends them. */
  function ImagePrefix(contents: seq<Byte>, n: nat): seq<seq<int>>
    requires RowLength * n <= |contents|
  {
    if n == 0 then [] else ImagePrefix(contents, n - 1) + [RowPrefix(contents, RowLength * (n - 1), Width)]
  }

  /** All 1187 rows. */
  function Image(contents: seq<Byte>): seq<seq<int>>
    requires |contents| >= BytesRead
  {
    ImagePrefix(contents, Height)
  }

  /** The concatenation of a list of rows. */
  function Flatten(rows: seq<seq<int>>): seq<int> {
    if rows == [] then [] else Flatten(rows[..|rows| - 1]) + rows[|rows| - 1]
  }

  /** The nested loops of `to_image.py`: row `j` starts at byte `j*14*3`, and
      pixel `i` of it at `j*14*3 + i*3`; each pixel contributes its three
      bytes, converted with `ord`. Reading past the end of the input raises
      `IndexError`. */
  method ToRgbRows(contents: seq<Byte>) returns (result: Reshaped)
    ensures result.Rows? <==> |contents| >= BytesRead
    ensures result.Rows? ==> result.rows == Image(contents)
  {
    var rgbArray: seq<seq<int>> := [];
    for j := 0 to 1187
      invariant RowLength * j <= |contents|
      invariant rgbArray == ImagePrefix(contents, j)
    {
      var rgbRow: seq<int> := [];
      var rowIdx := j * 14 * 3;
      for i := 0 to 14
        invariant rowIdx + Channels * i <= |contents|
        invariant rgbRow == RowPrefix(contents, rowIdx, i)
      {
        var colIdx := i * 3;
        if rowIdx + colIdx + 2 >= |contents| {
          return IndexError;
        }
        rgbRow := rgbRow + [contents[rowIdx + colIdx] as int,
                            contents[rowIdx + colIdx + 1] as int,
                            contents[rowIdx + colIdx + 2] as int];
      }
      rgbArray := rgbArray + [rgbRow];
    }
    return Rows(rgbArray);
  }

  /** A row prefix is the run of input bytes it covers. */
  lemma {:induction false} RowPrefixIsSlice(contents: seq<Byte>, start: nat, n: nat)
    requires start + Channels * n <= |contents|
    ensures RowPrefix(contents, start, n) == Ords(contents[start..start + Channels * n])
  {
    if n > 0 {
      RowPrefixIsSlice(contents, start, n - 1);
      var r := RowPrefix(contents, start, n);
      var s := Ords(contents[start..start + Channels * n]);
      assert |r| == |s|;
      forall m | 0 <= m < |r| ensures r[m] == s[m] {
        if m >= Channels * (n - 1) {
          assert r[m] == contents[start + m] as int;
        } else {
          assert r[m] == Ords(contents[start..start + Channels * (n - 1)])[m];
        }
      }
    }
  }

  /** The first `n` rows are `n` runs of 42 consecutive input bytes. */
  lemma {:induction false} ImagePrefixRows(contents: seq<Byte>, n: nat)
    requires RowLength * n <= |contents|
    ensures |ImagePrefix(contents, n)| == n
    ensures forall j :: 0 <= j < n ==> ImagePrefix(contents, n)[j] == Ords(contents[RowLength * j..RowLength * j + RowLength])
  {
    if n > 0 {
      ImagePrefixRows(contents, n - 1);
      RowPrefixIsSlice(contents, RowLength * (n - 1), Width);
    }
  }

  /** Exactly 1187 rows of exactly 42 values; value `m` of row `j` is the
      byte at offset `j*42 + m`, so channel `k` of pixel `i` is the byte at
      `j*42 + 3*i + k`; every value is in 0..255. */
  lemma ImageEntry(contents: seq<Byte>, j: nat, m: nat)
    requires |contents| >= BytesRead
    requires j < Height && m < RowLength
    ensures |Image(contents)| == Height
    ensures |Image(contents)[j]| == RowLength
    ensures Image(contents)[j][m] == contents[j * RowLength + m] as int
    ensures 0 <= Image(contents)[j][m] < 256
  {
    ImagePrefixRows(contents, Height);
  }

  /** The first `n` rows, laid end to end, are the first `42*n` input bytes. */
  lemma {:induction false} ImagePrefixFlatten(contents: seq<Byte>, n: nat)
    requires RowLength * n <= |contents|
    ensures Flatten(ImagePrefix(contents, n)) == Ords(contents[..RowLength * n])
  {
    if n > 0 {
      var start := RowLength * (n - 1);
      var end := start + RowLength;
      RowWithinPrefix(n - 1, n);
      var before := ImagePrefix(contents, n - 1);
      var row := RowPrefix(contents, start, Width);
      ImagePrefixSnoc(contents, n);
      ImagePrefixFlatten(contents, n - 1);
      RowPrefixIsSlice(contents, start, Width);
      FlattenSnoc(before, row);
      PrefixSplit(contents, start, end);
      OrdsAppend(contents[..start], contents[start..end]);
    }
  }

  lemma ImagePrefixSnoc(contents: seq<Byte>, n: nat)
    requires 0 < n && RowLength * n <= |contents|
    ensures ImagePrefix(contents, n) == ImagePrefix(contents, n - 1) + [RowPrefix(contents, RowLength * (n - 1), Width)]
  {
  }

  lemma FlattenSnoc(rows: seq<seq<int>>, row: seq<int>)
    ensures Flatten(rows + [row]) == Flatten(rows) + row
  {
    assert (rows + [row])[..|rows|] == rows;
  }

  lemma PrefixSplit(s: seq<Byte>, i: nat, j: nat)
    requires i <= j <= |s|
    ensures s[..j] == s[..i] + s[i..j]
  {
  }

  lemma OrdsAppend(a: seq<Byte>, b: seq<Byte>)
    ensures Ords(a + b) == Ords(a) + Ords(b)
  {
  }

  /** All rows, laid end to end, are the first 49854 input bytes, in order. */
  lemma ImageFlatten(contents: seq<Byte>)
    requires |contents| >= BytesRead
    ensures Flatten(Image(contents)) == Ords(contents[..BytesRead])
  {
    ImagePrefixFlatten(contents, Height);
  }

  /** Only the first 49854 bytes are read: inputs that agree on them give the same rows. */
  lemma ImageReadsOnlyPrefix(c1: seq<Byte>, c2: seq<Byte>)
    requires |c1| >= BytesRead && |c2| >= BytesRead
    requires c1[..BytesRead] == c2[..BytesRead]
    ensures Image(c1) == Image(c2)
  {
    ImagePrefixRows(c1, Height);
    ImagePrefixRows(c2, Height);
    forall j | 0 <= j < Height ensures Image(c1)[j] == Image(c2)[j] {
      var lo := RowLength * j;
      RowWithinPrefix(j, Height);
      assert c1[lo..lo + RowLength] == c1[..BytesRead][lo..lo + RowLength];
      assert c2[lo..lo + RowLength] == c2[..BytesRead][lo..lo + RowLength];
    }
  }

  /** Row `j` of the first `n` rows ends within their `42*n` bytes. */
  lemma RowWithinPrefix(j: nat, n: nat)
    requires j < n
    ensures RowLength * j + RowLength <= RowLength * n
    ensures j + 1 == n ==> RowLength * j + RowLength == RowLength * n
  {
    assert RowLength * j + RowLength == RowLength * (j + 1);
  }
}
