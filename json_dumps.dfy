/** The JSON converters for Eigen vectors and matrices and for std::complex
    (NetKet/Utils/json_dumps.hpp), over a JSON value whose scalars have type T. */
module JsonDumps {
  import opened Wrappers

  // Error messages.
  const NotArray := "type must be array"
  const BadMatrix := "Error while loading Eigen Matrix from Json"
  const IndexOutOfRange := "array index out of range"
  const NotNumber := "type must be number"

  /** A JSON value: a scalar of the element type, or an array of values. */
  datatype Json<T> = Scalar(v: T) | Arr(items: seq<Json<T>>)

  // ------------------------------------------------------------------------
  // Vectors.

  /** nlohmann::json(std::vector<T>): an array of scalars, in order. */
  function VectorJson<T>(v: seq<T>): Json<T>
  {
    Arr(seq(|v|, i requires 0 <= i < |v| => Scalar(v[i])))
  }

  /** js.get<std::vector<T>>(): defined on an array of scalars, a type error otherwise. */
  function DecodeVector<T>(js: Json<T>): Result<seq<T>>
  {
    if js.Arr? && forall i :: 0 <= i < |js.items| ==> js.items[i].Scalar? then
      Ok(seq(|js.items|, i requires 0 <= i < |js.items| && js.items[i].Scalar? => js.items[i].v))
    else
      Err(TypeError(NotArray))
  }

  /** Decoding an encoded vector gives it back. */
  lemma VectorRoundTrip<T>(v: seq<T>)
    ensures DecodeVector(VectorJson(v)) == Ok(v)
  {
    var js := VectorJson(v);
    assert |js.items| == |v|;
    assert forall i :: 0 <= i < |js.items| ==> js.items[i] == Scalar(v[i]);
    assert js.Arr? && forall i :: 0 <= i < |js.items| ==> js.items[i].Scalar?;
    var d := DecodeVector(js).value;
    assert |d| == |v|;
    assert forall i :: 0 <= i < |v| ==> d[i] == v[i];
    assert d == v;
  }

  /** Whatever decodes as a vector is the encoding of that vector. */
  lemma VectorJsonOfDecoded<T>(js: Json<T>)
    requires DecodeVector(js).Ok?
    ensures VectorJson(DecodeVector(js).value) == js
  {
    var v := DecodeVector(js).value;
    assert |VectorJson(v).items| == |js.items|;
    forall i | 0 <= i < |js.items|
      ensures VectorJson(v).items[i] == js.items[i]
    {
    }
  }

  /** to_json for a vector: copy v into a std::vector element by element and convert it. */
  method VectorToJson<T>(v: array<T>) returns (js: Json<T>)
    ensures js == VectorJson(v[..])
    ensures js.Arr? && |js.items| == v.Length && forall i :: 0 <= i < v.Length ==> js.items[i] == Scalar(v[i])
  {
    var temp: seq<T> := [];
    for i := 0 to v.Length
      invariant temp == v[..i]
    {
      temp := temp + [v[i]];
    }
    assert v[..v.Length] == v[..];
    js := VectorJson(temp);
  }

  /** from_json for a vector: get a std::vector, resize v to its length and copy it in. */
  method VectorFromJson<T(0)>(js: Json<T>) returns (r: Result<array<T>>)
    ensures r.Ok? <==> DecodeVector(js).Ok?
    ensures r.Err? ==> r.error.TypeError?
    ensures r.Ok? ==> fresh(r.value) && r.value[..] == DecodeVector(js).value
  {
    var decoded := DecodeVector(js);
    if decoded.Err? {
      return Err(decoded.error);
    }
    var temp := decoded.value;
    var v := new T[|temp|];
    for i := 0 to |temp|
      invariant v[..i] == temp[..i]
    {
      v[i] := temp[i];
    }
    assert v[..] == v[..|temp|] && temp == temp[..|temp|];
    return Ok(v);
  }

  // ------------------------------------------------------------------------
  // Matrices.

  /** The rows of a matrix, row by row. */
  function Rows<T>(m: array2<T>): (rows: seq<seq<T>>)
    reads m
    ensures |rows| == m.Length0 && forall i :: 0 <= i < m.Length0 ==> |rows[i]| == m.Length1
  {
    seq(m.Length0, i requires 0 <= i < m.Length0 reads m =>
      seq(m.Length1, j requires 0 <= j < m.Length1 reads m => m[i, j]))
  }

  /** nlohmann::json(std::vector<std::vector<T>>): an array of rows. */
  function MatrixJson<T>(rows: seq<seq<T>>): Json<T>
  {
    Arr(seq(|rows|, i requires 0 <= i < |rows| => VectorJson(rows[i])))
  }

  /** js.get<std::vector<std::vector<T>>>(): defined on an array of arrays of scalars. */
  function DecodeRows<T>(js: Json<T>): Result<seq<seq<T>>>
  {
    if js.Arr? && forall i :: 0 <= i < |js.items| ==> DecodeVector(js.items[i]).Ok? then
      Ok(seq(|js.items|, i requires 0 <= i < |js.items| && DecodeVector(js.items[i]).Ok? =>
        DecodeVector(js.items[i]).value))
    else
      Err(TypeError(NotArray))
  }

  /** At least one row and one column, and every row as long as the first. */
  predicate Rectangular<T>(rows: seq<seq<T>>)
  {
    |rows| > 0 && |rows[0]| > 0 && forall i :: 0 <= i < |rows| ==> |rows[i]| == |rows[0]|
  }

  /** What the source's from_json accepts: a non-empty first row, and every non-empty row as long as it. */
  predicate AcceptedAsWritten<T>(rows: seq<seq<T>>)
  {
    |rows| > 0 && |rows[0]| > 0 && forall i :: 0 <= i < |rows| ==> |rows[i]| == 0 || |rows[i]| == |rows[0]|
  }

  /** to_json for a matrix: rows() rows of cols() entries each. */
  method MatrixToJson<T>(m: array2<T>) returns (js: Json<T>)
    ensures js == MatrixJson(Rows(m))
    ensures js.Arr? && |js.items| == m.Length0
    ensures forall i :: 0 <= i < m.Length0 ==> js.items[i].Arr? && |js.items[i].items| == m.Length1
  {
    var temp: seq<seq<T>> := [];
    for i := 0 to m.Length0
      invariant |temp| == i && forall i' :: 0 <= i' < i ==> temp[i'] == Rows(m)[i']
    {
      var row: seq<T> := [];
      for j := 0 to m.Length1
        invariant |row| == j && forall j' :: 0 <= j' < j ==> row[j'] == m[i, j']
      {
        row := row + [m[i, j]];
      }
      temp := temp + [row];
    }
    assert temp == Rows(m);
    js := MatrixJson(temp);
  }

  /**
   * from_json for a matrix, as the source does it: the size check sits inside the
   * loop over a row's entries, so an empty row after the first is never checked
   * and its entries are left as they were. An empty top-level array is not handled
   * by the source (it reads row 0 of no rows).
   */
  method MatrixFromJsonAsWritten<T(0)>(js: Json<T>) returns (r: Result<array2<T>>)
    requires js != Arr([])
    ensures r.Ok? <==> DecodeRows(js).Ok? && AcceptedAsWritten(DecodeRows(js).value)
    ensures DecodeRows(js).Err? ==> r.Err? && r.error.TypeError?
    ensures DecodeRows(js).Ok? && r.Err? ==> r.error.InvalidInput?
    ensures r.Ok? ==> fresh(r.value)
    ensures r.Ok? ==> r.value.Length0 == |DecodeRows(js).value| && r.value.Length1 == |DecodeRows(js).value[0]|
    ensures r.Ok? ==> forall i, j :: 0 <= i < r.value.Length0 && |DecodeRows(js).value[i]| > 0 && 0 <= j < r.value.Length1 ==>
                        r.value[i, j] == DecodeRows(js).value[i][j]
  {
    var decoded := DecodeRows(js);
    if decoded.Err? {
      return Err(decoded.error);
    }
    var temp := decoded.value;
    if |temp[0]| == 0 {
      return Err(InvalidInput(BadMatrix));
    }
    var v := new T[|temp|, |temp[0]|];
    for i := 0 to |temp|
      invariant forall i' :: 0 <= i' < i ==> |temp[i']| == 0 || |temp[i']| == |temp[0]|
      invariant forall i', j :: 0 <= i' < i && |temp[i']| > 0 && 0 <= j < |temp[0]| ==> v[i', j] == temp[i'][j]
    {
      for j := 0 to |temp[i]|
        invariant j > 0 ==> |temp[i]| == |temp[0]|
        invariant forall i', j' :: 0 <= i' < i && |temp[i']| > 0 && 0 <= j' < |temp[0]| ==> v[i', j'] == temp[i'][j']
        invariant forall j' :: 0 <= j' < j ==> v[i, j'] == temp[i][j']
      {
        if |temp[i]| != |temp[0]| {
          return Err(InvalidInput(BadMatrix));
        }
        v[i, j] := temp[i][j];
      }
    }
    return Ok(v);
  }

  /** An array with a later empty row is accepted, though it is no matrix. */
  lemma RaggedAcceptedAsWritten<T>(x: T)
    ensures var rows := DecodeRows(Arr([Arr([Scalar(x)]), Arr([])]));
            rows == Ok([[x], []]) && AcceptedAsWritten(rows.value) && !Rectangular(rows.value)
  {
    var js: Json<T> := Arr([Arr([Scalar(x)]), Arr([])]);
    VectorRoundTrip([x]);
    VectorRoundTrip<T>([]);
    assert VectorJson([x]) == js.items[0];
    assert VectorJson<T>([]) == js.items[1];
    var d := DecodeRows(js).value;
    assert d == [[x], []];
    assert |d[1]| != |d[0]|;
  }

  /** from_json for a matrix with every row checked, the empty ones included. */
  method MatrixFromJson<T(0)>(js: Json<T>) returns (r: Result<array2<T>>)
    requires js != Arr([])
    ensures r.Ok? <==> DecodeRows(js).Ok? && Rectangular(DecodeRows(js).value)
    ensures DecodeRows(js).Err? ==> r.Err? && r.error.TypeError?
    ensures DecodeRows(js).Ok? && r.Err? ==> r.error.InvalidInput?
    ensures r.Ok? ==> fresh(r.value) && Rows(r.value) == DecodeRows(js).value
  {
    var decoded := DecodeRows(js);
    if decoded.Err? {
      return Err(decoded.error);
    }
    var temp := decoded.value;
    if |temp[0]| == 0 {
      return Err(InvalidInput(BadMatrix));
    }
    var v := new T[|temp|, |temp[0]|];
    for i := 0 to |temp|
      invariant forall i' :: 0 <= i' < i ==> |temp[i']| == |temp[0]|
      invariant forall i', j :: 0 <= i' < i && 0 <= j < |temp[0]| ==> v[i', j] == temp[i'][j]
    {
      if |temp[i]| != |temp[0]| {
        return Err(InvalidInput(BadMatrix));
      }
      for j := 0 to |temp[i]|
        invariant forall i', j' :: 0 <= i' < i && 0 <= j' < |temp[0]| ==> v[i', j'] == temp[i'][j']
        invariant forall j' :: 0 <= j' < j ==> v[i, j'] == temp[i][j']
      {
        v[i, j] := temp[i][j];
      }
    }
    assert |Rows(v)| == |temp|;
    forall i | 0 <= i < |temp| ensures Rows(v)[i] == temp[i] {
      assert |Rows(v)[i]| == |temp[i]|;
    }
    return Ok(v);
  }

  /** Decoding the encoding of rows gives them back. */
  lemma RowsRoundTrip<T>(rows: seq<seq<T>>)
    ensures DecodeRows(MatrixJson(rows)) == Ok(rows)
  {
    var js := MatrixJson(rows);
    forall i | 0 <= i < |rows|
      ensures DecodeVector(js.items[i]) == Ok(rows[i])
    {
      VectorRoundTrip(rows[i]);
    }
    assert js.Arr? && forall i :: 0 <= i < |js.items| ==> DecodeVector(js.items[i]).Ok?;
    var d := DecodeRows(js).value;
    assert |d| == |rows|;
    assert forall i :: 0 <= i < |rows| ==> d[i] == rows[i];
    assert d == rows;
  }

  /** to_json then from_json reproduces a matrix with at least one row and one column. */
  method MatrixRoundTrip<T(0)>(m: array2<T>) returns (r: Result<array2<T>>)
    requires m.Length0 >= 1 && m.Length1 >= 1
    ensures r.Ok? && Rows(r.value) == Rows(m)
  {
    var js := MatrixToJson(m);
    RowsRoundTrip(Rows(m));
    r := MatrixFromJson(js);
  }

  // ------------------------------------------------------------------------
  // Complex numbers.

  /** std::complex<T>. */
  datatype ComplexOf<T> = ComplexOf(re: T, im: T)

  /** adl_serializer<std::complex<T>>::to_json: the array [re, im]. */
  function ComplexToJson<T>(p: ComplexOf<T>): (js: Json<T>)
  {
    Arr([Scalar(p.re), Scalar(p.im)])
  }

  /**
   * adl_serializer<std::complex<T>>::from_json: an array gives (js.at(0), js.at(1)),
   * read left to right, anything else is read as a real part with imaginary part zero.
   */
  function ComplexFromJson<T>(js: Json<T>, zero: T): (r: Result<ComplexOf<T>>)
    ensures r.Ok? <==> js.Scalar? || (|js.items| >= 2 && js.items[0].Scalar? && js.items[1].Scalar?)
    ensures js.Scalar? ==> r == Ok(ComplexOf(js.v, zero))
    ensures r.Err? ==> (r.error.OutOfRange? <==> |js.items| < 2 && (|js.items| == 0 || js.items[0].Scalar?))
  {
    if js.Arr? then
      if |js.items| == 0 then Err(OutOfRange(IndexOutOfRange))
      else if !js.items[0].Scalar? then Err(TypeError(NotNumber))
      else if |js.items| == 1 then Err(OutOfRange(IndexOutOfRange))
      else if !js.items[1].Scalar? then Err(TypeError(NotNumber))
      else Ok(ComplexOf(js.items[0].v, js.items[1].v))
    else
      Ok(ComplexOf(js.v, zero))
  }

  /** Reading back a written complex number gives it back. */
  lemma ComplexRoundTrip<T>(p: ComplexOf<T>, zero: T)
    ensures ComplexFromJson(ComplexToJson(p), zero) == Ok(p)
  {
  }

  /** An array read as a complex number is its first two entries; later entries are ignored. */
  lemma ComplexFromArray<T>(js: Json<T>, zero: T)
    requires js.Arr? && |js.items| >= 2 && js.items[0].Scalar? && js.items[1].Scalar?
    ensures ComplexFromJson(js, zero) == Ok(ComplexOf(js.items[0].v, js.items[1].v))
    ensures ComplexToJson(ComplexFromJson(js, zero).value) == Arr(js.items[..2])
  {
    assert js.items[..2] == [js.items[0], js.items[1]];
  }
}
