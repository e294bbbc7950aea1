/** Small types and sequence facts that several modules share. */
module Common {

  datatype Option<+T> = None | Some(value: T)

  datatype Result<+T, +E> = Ok(value: T) | Err(error: E)

  type byte = b: int | 0 <= b < 256

  type Buffer = seq<byte>

  type int32 = i: int | -0x8000_0000 <= i < 0x8000_0000

  /** A C string: the text in front of the terminating NUL. */
  type CString = s: string | '\0' !in s

  /** The pieces of `ss`, one after the other. */
  function Flatten<T>(ss: seq<seq<T>>): seq<T> {
    if ss == [] then [] else ss[0] + Flatten(ss[1..])
  }

  lemma {:induction false} FlattenAppend<T>(a: seq<seq<T>>, b: seq<seq<T>>)
    ensures Flatten(a + b) == Flatten(a) + Flatten(b)
  {
    if a == [] {
      assert a + b == b;
    } else {
      assert (a + b)[1..] == a[1..] + b;
      FlattenAppend(a[1..], b);
    }
  }

  /** Moving the head of `rest` to the end of `done` keeps the whole. */
  lemma MoveOne<T>(done: seq<T>, rest: seq<T>)
    requires rest != []
    ensures (done + [rest[0]]) + rest[1..] == done + rest
  {
  }
}
