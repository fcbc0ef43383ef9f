/**
  The crate's tests, as clients of the box. An `i32` is stored as its four
  little-endian bytes; `b'a'` is the single byte 97. Each box is dropped at the
  end, in reverse order of creation, as at the end of a Rust scope.
*/
module SecboxScenarios {
  import opened Region
  import opened Secbox

  /** test_new: a new box reads back the value it was given. */
  method NewReadsBack() returns (a: seq<byte>, b: seq<byte>, c: seq<byte>)
    ensures a == [97] && b == [98] && c == [99]
  {
    var x := new SecBox.New([97]);
    var y := new SecBox.New([98]);
    var z := new SecBox.New([99]);
    a := x.Deref();
    b := y.Deref();
    c := z.Deref();
    z.Drop();
    y.Drop();
    x.Drop();
  }

  /** test_unsized: a box adopting an existing allocation (the boxed str "abcs") reads back its bytes. */
  method AdoptReadsBack() returns (s: seq<byte>)
    ensures s == [97, 98, 99, 115]
  {
    var boxed := new byte[][97, 98, 99, 115];
    var bx := new SecBox.From(boxed);
    s := bx.Deref();
    bx.Drop();
  }

  /** test_zeroed: after a box holding 44 is dropped, the bytes where its value lived are all zero. */
  method DropZeroes() returns (after: seq<byte>)
    ensures after == [0, 0, 0, 0]
  {
    var bx := new SecBox.New([44, 0, 0, 0]);
    var region := bx.mem;
    bx.Drop();
    after := region[..];
  }

  /** test_into_inner: extraction hands back exactly the stored values. */
  method IntoInnerReturnsValue() returns (a: seq<byte>, b: seq<byte>, c: seq<byte>)
    ensures a == [97] && b == [98] && c == [99]
  {
    var x := new SecBox.New([97]);
    var y := new SecBox.New([98]);
    var z := new SecBox.New([99]);
    a := x.IntoInner();
    b := y.IntoInner();
    c := z.IntoInner();
  }

  /** test_mut: writes through DerefMut are seen by later reads: 0, then `+= 1`, then `= 55`. */
  method WritesThroughDerefMut() returns (v0: seq<byte>, v1: seq<byte>, v2: seq<byte>)
    ensures v0 == [0, 0, 0, 0] && v1 == [1, 0, 0, 0] && v2 == [55, 0, 0, 0]
  {
    var n := new SecBox.New([0, 0, 0, 0]);
    v0 := n.Deref();
    // `*n += 1` reads the value through the reference and stores the sum back
    n.Store(0, [v0[0] + 1] + v0[1..]);
    v1 := n.Deref();
    n.Assign([55, 0, 0, 0]);
    v2 := n.Deref();
    n.Drop();
  }

  /**
    test_clone: writing to a clone leaves the original as it was; once both are
    dropped, both former regions are zero.
  */
  method CloneIsIndependent() returns (original: seq<byte>, copy: seq<byte>, originalAfter: seq<byte>, copyAfter: seq<byte>)
    ensures original == [0, 0, 0, 0] && copy == [3, 0, 0, 0]
    ensures originalAfter == [0, 0, 0, 0] && copyAfter == [0, 0, 0, 0]
  {
    var bx := new SecBox.New([0, 0, 0, 0]);
    var bx2 := bx.Clone();
    bx2.Assign([3, 0, 0, 0]);
    original := bx.Deref();
    copy := bx2.Deref();
    bx2.Drop();
    bx.Drop();
    originalAfter := bx.mem[..];
    copyAfter := bx2.mem[..];
  }

  /** test_clone_from: the destination takes the source's value; the source keeps it. */
  method CloneFromReplaces() returns (source: seq<byte>, dest: seq<byte>)
    ensures source == [0, 0, 0, 0] && dest == [0, 0, 0, 0]
  {
    var bx := new SecBox.New([0, 0, 0, 0]);
    var bx2 := new SecBox.New([44, 0, 0, 0]);
    bx2.CloneFrom(bx);
    source := bx.Deref();
    dest := bx2.Deref();
    bx2.Drop();
    bx.Drop();
  }

  /** Display and Debug of a box render the placeholder, whatever value it holds. */
  method FormatHidesValue(v: seq<byte>) returns (shown: string, debugged: string)
    ensures shown == "*******" && debugged == "*******"
  {
    var bx := new SecBox.New(v);
    var f := new Formatter();
    var g := new Formatter();
    bx.Display(f);
    bx.Debug(g);
    shown := f.out;
    debugged := g.out;
    bx.Drop();
  }
}
