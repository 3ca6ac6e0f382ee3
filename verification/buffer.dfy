/** The small buffer of pans/src/Logger/buffer.h: a fixed array that spills into a growable vector, and the
  * stream buffer that writes into it.
  */
module Buffer {
  datatype Option<T> = None | Some(value: T)

  class InlineBuffer {
    const inline: array<char>
    var overflow: seq<char>
    var size: nat

    /** The vector is in use exactly when the text does not fit the array, and then holds all of it. */
    ghost predicate Valid()
      reads this
    {
      if overflow == [] then size <= inline.Length else size == |overflow| && inline.Length < size
    }

    /** The text appended so far; `data()` and `size()` together. */
    ghost function View(): (text: seq<char>)
      requires Valid()
      reads this, inline
    {
      if overflow == [] then inline[..size] else overflow
    }

    constructor (capacity: nat)
      ensures Valid() && fresh(inline) && inline.Length == capacity && View() == []
    {
      inline := new char[capacity];
      overflow := [];
      size := 0;
    }

    method Append(data: seq<char>)
      requires Valid()
      modifies this, inline
      ensures Valid()
      ensures View() == old(View()) + data
      ensures size == old(size) + |data|
      ensures overflow != [] <==> inline.Length < size
    {
      if |data| == 0 {
        return;
      }
      if overflow == [] && |data| + size <= inline.Length {
        forall i | 0 <= i < |data| {
          inline[size + i] := data[i];
        }
        size := size + |data|;
        return;
      }
      if overflow == [] {
        overflow := overflow + inline[..size];
      }
      overflow := overflow + data;
      size := size + |data|;
    }

    method AppendChar(value: char)
      requires Valid()
      modifies this, inline
      ensures Valid()
      ensures View() == old(View()) + [value]
      ensures overflow != [] <==> inline.Length < size
    {
      Append([value]);
    }

    /** `view()`. */
    method GetView() returns (text: seq<char>)
      requires Valid()
      ensures text == View() && |text| == size
    {
      if overflow == [] {
        text := inline[..size];
      } else {
        text := overflow[..size];
      }
    }
  }

  /** What std::ostream hands to the stream buffer. */
  datatype Chunk =
    | Put(data: seq<char>, count: int)       // xsputn; `data` has at least `count` characters
    | PutChar(character: Option<char>)       // overflow; None is the end-of-file value

  predicate ValidChunk(chunk: Chunk) { chunk.Put? ==> chunk.count <= |chunk.data| }

  function ChunkText(chunk: Chunk): seq<char>
    requires ValidChunk(chunk)
  {
    match chunk
    case Put(data, count) => if count <= 0 then [] else data[..count]
    case PutChar(character) => if character.Some? then [character.value] else []
  }

  function TextOf(chunks: seq<Chunk>): seq<char>
    requires forall chunk :: chunk in chunks ==> ValidChunk(chunk)
  {
    if chunks == [] then [] else ChunkText(chunks[0]) + TextOf(chunks[1..])
  }

  /** `SmallStreamBuffer`. */
  class SmallStreamBuffer {
    const buffer: InlineBuffer

    constructor (buffer: InlineBuffer)
      ensures this.buffer == buffer
    {
      this.buffer := buffer;
    }

    method Xsputn(data: seq<char>, count: int) returns (written: int)
      requires buffer.Valid() && count <= |data|
      modifies buffer, buffer.inline
      ensures buffer.Valid()
      ensures buffer.View() == old(buffer.View()) + ChunkText(Put(data, count))
      ensures written == |ChunkText(Put(data, count))|
    {
      if count <= 0 {
        return 0;
      }
      buffer.Append(data[..count]);
      return count;
    }

    /** A result of true reports success, which is never the end-of-file value. */
    method Overflow(character: Option<char>) returns (success: bool)
      requires buffer.Valid()
      modifies buffer, buffer.inline
      ensures buffer.Valid() && success
      ensures buffer.View() == old(buffer.View()) + ChunkText(PutChar(character))
    {
      if character.None? {
        return true;
      }
      buffer.AppendChar(character.value);
      return true;
    }

    method WriteChunk(chunk: Chunk)
      requires buffer.Valid() && ValidChunk(chunk)
      modifies buffer, buffer.inline
      ensures buffer.Valid()
      ensures buffer.View() == old(buffer.View()) + ChunkText(chunk)
    {
      match chunk {
        case Put(data, count) =>
          var written := Xsputn(data, count);
        case PutChar(character) =>
          var success := Overflow(character);
      }
    }

    /** A chain of `<<` and `write` calls, as the stream cuts it up. */
    method Write(chunks: seq<Chunk>)
      requires buffer.Valid()
      requires forall chunk :: chunk in chunks ==> ValidChunk(chunk)
      modifies buffer, buffer.inline
      ensures buffer.Valid()
      ensures buffer.View() == old(buffer.View()) + TextOf(chunks)
    {
      hide TextOf, ChunkText, ValidChunk;
      ghost var start := buffer.View();
      TextOfNone();
      assert chunks[..0] == [] && start + [] == start;
      for i := 0 to |chunks|
        invariant buffer.Valid()
        invariant buffer.View() == start + TextOf(chunks[..i])
      {
        assert chunks[i] in chunks;
        TextOfSnoc(chunks[..i], chunks[i]);
        assert chunks[..i + 1] == chunks[..i] + [chunks[i]];
        ghost var before, chunk := TextOf(chunks[..i]), ChunkText(chunks[i]);
        assert start + (before + chunk) == start + before + chunk;
        WriteChunk(chunks[i]);
      }
      assert chunks[..|chunks|] == chunks;
    }

    /** However the message is cut up, the buffer ends up as after one `xsputn` of all of it. */
    method WriteCut(message: seq<char>, cuts: seq<Cut>)
      requires buffer.Valid()
      modifies buffer, buffer.inline
      ensures buffer.Valid()
      ensures buffer.View() == old(buffer.View()) + message
    {
      CuttingIsInvisible(message, cuts);
      Write(CutUp(message, cuts));
    }
  }

  lemma TextOfNone()
    ensures TextOf([]) == []
  {}

  lemma TextOfSnoc(a: seq<Chunk>, chunk: Chunk)
    requires ValidChunk(chunk) && forall other :: other in a ==> ValidChunk(other)
    ensures forall other :: other in a + [chunk] ==> ValidChunk(other)
    ensures TextOf(a + [chunk]) == TextOf(a) + ChunkText(chunk)
  {
    TextOfConcat(a, [chunk]);
    assert TextOf([chunk]) == ChunkText(chunk) + TextOf([]);
  }

  lemma {:induction false} TextOfConcat(a: seq<Chunk>, b: seq<Chunk>)
    requires forall chunk :: chunk in a || chunk in b ==> ValidChunk(chunk)
    ensures forall chunk :: chunk in a + b ==> ValidChunk(chunk)
    ensures TextOf(a + b) == TextOf(a) + TextOf(b)
  {
    if a == [] {
      assert a + b == b;
    } else {
      assert (a + b)[1..] == a[1..] + b && a[0] in a;
      TextOfConcat(a[1..], b);
      assert ChunkText(a[0]) + (TextOf(a[1..]) + TextOf(b)) == ChunkText(a[0]) + TextOf(a[1..]) + TextOf(b);
    }
  }

  /** Where the next piece of a message ends. */
  datatype Cut = Piece(length: nat) | OneChar | EndOfFile

  /** The chunks of `message` cut as `cuts` say, pieces being sent straight from it; what is left is sent whole. */
  function CutUp(message: seq<char>, cuts: seq<Cut>): seq<Chunk>
    decreases |cuts|
  {
    if cuts == [] then [Put(message, |message|)]
    else
      match cuts[0]
      case Piece(length) =>
        var n := if length <= |message| then length else |message|;
        [Put(message, n)] + CutUp(message[n..], cuts[1..])
      case OneChar =>
        if message == [] then CutUp(message, cuts[1..])
        else [PutChar(Some(message[0]))] + CutUp(message[1..], cuts[1..])
      case EndOfFile => [PutChar(None)] + CutUp(message, cuts[1..])
  }

  lemma TextOfCons(chunk: Chunk, chunks: seq<Chunk>)
    requires ValidChunk(chunk) && forall other :: other in chunks ==> ValidChunk(other)
    ensures forall other :: other in [chunk] + chunks ==> ValidChunk(other)
    ensures TextOf([chunk] + chunks) == ChunkText(chunk) + TextOf(chunks)
  {
    assert ([chunk] + chunks)[1..] == chunks;
  }

  /** Any cut of a message is the message: pieces, single characters and end-of-file values between them. */
  lemma {:induction false} CuttingIsInvisible(message: seq<char>, cuts: seq<Cut>)
    ensures forall chunk :: chunk in CutUp(message, cuts) ==> ValidChunk(chunk)
    ensures TextOf(CutUp(message, cuts)) == message
    decreases |cuts|
  {
    hide TextOf;
    if cuts == [] {
      TextOfNone();
      TextOfCons(Put(message, |message|), []);
      assert [Put(message, |message|)] + [] == [Put(message, |message|)] && message + TextOf([]) == message;
    } else {
      var rest := cuts[1..];
      match cuts[0]
      case Piece(length) =>
        var n := if length <= |message| then length else |message|;
        CuttingIsInvisible(message[n..], rest);
        TextOfCons(Put(message, n), CutUp(message[n..], rest));
        assert message == message[..n] + message[n..];
      case OneChar =>
        if message == [] {
          CuttingIsInvisible(message, rest);
        } else {
          CuttingIsInvisible(message[1..], rest);
          TextOfCons(PutChar(Some(message[0])), CutUp(message[1..], rest));
          assert message == [message[0]] + message[1..];
        }
      case EndOfFile =>
        CuttingIsInvisible(message, rest);
        TextOfCons(PutChar(None), CutUp(message, rest));
    }
  }
}
