/** The optional-value wrapper used by the readers below. */
module Wrappers {
  datatype Option<T> = None | Some(value: T)
}

/** The logical layout of a dump file: the width field, the height field, and
    then width * height * depth buffer elements in buffer order, where depth
    is the number of elements per pixel (3 for colour, 1 for depth). */
module FrameDump {
  import opened Wrappers

  /** One logical item of a dump file. */
  datatype Field<T> = Dim(n: int) | Elem(v: T)

  /** What a dump file describes: the two dimension fields and the elements. */
  datatype Image<T> = Image(width: int, height: int, data: seq<T>)

  /** Buffer elements as dump items, in order. */
  function Elems<T>(s: seq<T>): (r: seq<Field<T>>)
    ensures |r| == |s|
    ensures forall k :: 0 <= k < |s| ==> r[k] == Elem(s[k])
  {
    if s == [] then [] else [Elem(s[0])] + Elems(s[1..])
  }

  /** What dump2file writes for a buffer: the header and exactly the first
      width * height * depth elements, with nothing after them. The buffer
      must hold at least that many elements. */
  function Dump<T>(data: seq<T>, width: int, height: int, depth: int): (f: seq<Field<T>>)
    requires 0 <= width && 0 <= height && 0 <= depth
    requires width * height * depth <= |data|
    ensures |f| == 2 + width * height * depth
    ensures f[0] == Dim(width) && f[1] == Dim(height)
    ensures forall k :: 2 <= k < |f| ==> f[k] == Elem(data[k - 2])
  {
    [Dim(width), Dim(height)] + Elems(data[..width * height * depth])
  }

  /** Reads dump items back as buffer elements; fails on a dimension field. */
  function UnElems<T>(f: seq<Field<T>>): Option<seq<T>>
  {
    if f == [] then Some([])
    else match f[0]
      case Dim(_) => None
      case Elem(v) =>
        match UnElems(f[1..])
        case None => None
        case Some(rest) => Some([v] + rest)
  }

  /** Reads a dump of the given depth: two dimension fields, then exactly as
      many elements as they announce. */
  function Undump<T>(f: seq<Field<T>>, depth: int): Option<Image<T>>
  {
    if |f| < 2 || !f[0].Dim? || !f[1].Dim? then None
    else
      var width, height := f[0].n, f[1].n;
      if width < 0 || height < 0 || depth < 0 || |f| != 2 + width * height * depth then None
      else
        match UnElems(f[2..])
        case None => None
        case Some(data) => Some(Image(width, height, data))
  }

  lemma {:induction false} UnElemsElems<T>(s: seq<T>)
    ensures UnElems(Elems(s)) == Some(s)
  {
    if s != [] {
      assert Elems(s)[1..] == Elems(s[1..]);
      UnElemsElems(s[1..]);
      assert [s[0]] + s[1..] == s;
    }
  }

  lemma {:induction false} ElemsUnElems<T>(f: seq<Field<T>>, s: seq<T>)
    requires UnElems(f) == Some(s)
    ensures Elems(s) == f
  {
    if f != [] {
      var rest := UnElems(f[1..]).value;
      ElemsUnElems(f[1..], rest);
      assert s == [f[0].v] + rest;
      assert s[1..] == rest;
      assert f == [f[0]] + f[1..];
    }
  }

  /** Reading a dump gives back its dimensions and the dumped elements. */
  lemma UndumpDump<T>(data: seq<T>, width: int, height: int, depth: int)
    requires 0 <= width && 0 <= height && 0 <= depth
    requires width * height * depth <= |data|
    ensures Undump(Dump(data, width, height, depth), depth) ==
            Some(Image(width, height, data[..width * height * depth]))
  {
    var f := Dump(data, width, height, depth);
    var body := data[..width * height * depth];
    assert f[2..] == Elems(body);
    UnElemsElems(body);
  }

  /** Every readable dump is exactly what dump2file writes for what it reads
      as, so the layout has no other encodings and no trailing items. */
  lemma DumpUndump<T>(f: seq<Field<T>>, depth: int)
    requires Undump(f, depth).Some?
    ensures var img := Undump(f, depth).value;
      0 <= img.width && 0 <= img.height && 0 <= depth &&
      img.width * img.height * depth == |img.data| &&
      Dump(img.data, img.width, img.height, depth) == f
  {
    var img := Undump(f, depth).value;
    ElemsUnElems(f[2..], img.data);
    assert img.data[..|img.data|] == img.data;
    assert f == [f[0], f[1]] + f[2..];
  }
}
