/** Which CLValues and types can be written at all: the encoder throws for the others (src/types/clvalue). */
module WritableValues {
  import opened Basics
  import opened ByteConverters
  import opened CLTypes
  import opened CLValues
  import opened NumberLayouts

  /** The sizes of byte arrays fit four bytes. */
  predicate TypeFits(t: CLType) {
    match t
    case Simple(_) => true
    case OptionOf(a) => TypeFits(a)
    case ListOf(a) => TypeFits(a)
    case ByteArrayOf(n) => n < 0x1_0000_0000
    case ResultOf(a, b) => TypeFits(a) && TypeFits(b)
    case MapOf(a, b) => TypeFits(a) && TypeFits(b)
    case Tuple1Of(a) => TypeFits(a)
    case Tuple2Of(a, b) => TypeFits(a) && TypeFits(b)
    case Tuple3Of(a, b, c) => TypeFits(a) && TypeFits(b) && TypeFits(c)
  }

  lemma {:induction false} TypeIsWritten(t: CLType)
    ensures TypeBytes(t).Ok? <==> TypeFits(t)
  {
    hide LE;
    match t
    case Simple(_) =>
    case OptionOf(a) => TypeIsWritten(a);
    case ListOf(a) => TypeIsWritten(a);
    case ByteArrayOf(_) =>
    case ResultOf(a, b) => TypeIsWritten(a); TypeIsWritten(b);
    case MapOf(a, b) => TypeIsWritten(a); TypeIsWritten(b);
    case Tuple1Of(a) => TypeIsWritten(a);
    case Tuple2Of(a, b) => TypeIsWritten(a); TypeIsWritten(b);
    case Tuple3Of(a, b, c) => TypeIsWritten(a); TypeIsWritten(b); TypeIsWritten(c);
  }

  /** A number is in the range of its kind. */
  predicate NumberFits(k: FixedKind, n: int) {
    match k
    case U8 => 0 <= n < 0x100
    case U32 => 0 <= n < 0x1_0000_0000
    case U64 => 0 <= n < 0x1_0000_0000_0000_0000
    case I32 => -0x8000_0000 <= n < 0x8000_0000
    case I64 => -0x8000_0000_0000_0000 <= n < 0x8000_0000_0000_0000
  }

  /** Every number inside is in range and every container's count fits four bytes; a list of Any has no count. */
  predicate Fits(v: CLValue)
    decreases v
  {
    match v
    case VFixed(k, n) => NumberFits(k, n)
    case VBig(k, n, kept) => kept || 0 <= n < Limit(k)
    case VOption(c, _) => c.Some? ==> Fits(c.value)
    case VList(t, es) => (t != Simple(Any) ==> |es| < 0x1_0000_0000) && forall i :: 0 <= i < |es| ==> Fits(es[i])
    case VResult(_, _, _, x) => Fits(x)
    case VMap(_, _, es) => |es| < 0x1_0000_0000 && forall i :: 0 <= i < |es| ==> EntryFits(es[i])
    case VTuple1(a) => Fits(a)
    case VTuple2(a, b) => Fits(a) && Fits(b)
    case VTuple3(a, b, c) => Fits(a) && Fits(b) && Fits(c)
    case _ => true
  }

  predicate EntryFits(e: Entry)
    decreases e
  {
    Fits(e.key) && Fits(e.val)
  }

  lemma LeafIsWritten(v: CLValue)
    requires IsLeaf(v)
    ensures LeafBytes(v).Ok? <==> Fits(v)
  {
    hide ToBytesNumber;
    assert ValueBytes(v) == LeafBytes(v);
    if v.VFixed? {
      FixedLayout(v.n);
    } else if v.VBig? {
      BigLayout(v.big, v.n);
    }
  }

  /** A value is written exactly when it fits; else its encoder throws. */
  lemma {:induction false} ValueIsWritten(v: CLValue)
    ensures ValueBytes(v).Ok? <==> Fits(v)
    decreases v
  {
    hide LeafBytes, LE, ElemsBytes, EntriesBytes, EntryFits;
    if IsLeaf(v) {
      LeafIsWritten(v);
    } else {
      match v
      case VOption(c, _) => if c.Some? { ValueIsWritten(c.value); }
      case VResult(_, _, _, x) => ValueIsWritten(x);
      case VList(_, es) => ElemsAreWritten(es);
      case VMap(_, _, es) => EntriesAreWritten(es);
      case VTuple1(a) => ValueIsWritten(a);
      case VTuple2(a, b) => ValueIsWritten(a); ValueIsWritten(b);
      case VTuple3(a, b, c) => ValueIsWritten(a); ValueIsWritten(b); ValueIsWritten(c);
    }
  }

  lemma {:induction false} ElemsAreWritten(es: seq<CLValue>)
    ensures ElemsBytes(es).Ok? <==> forall i :: 0 <= i < |es| ==> Fits(es[i])
    decreases es
  {
    hide ValueBytes, Fits;
    if es != [] {
      ValueIsWritten(es[0]);
      ElemsAreWritten(es[1..]);
      assert forall i :: 1 <= i < |es| ==> es[i] == es[1..][i - 1];
    }
  }

  lemma {:induction false} EntriesAreWritten(es: seq<Entry>)
    ensures EntriesBytes(es).Ok? <==> forall i :: 0 <= i < |es| ==> EntryFits(es[i])
    decreases es
  {
    hide EntryBytes, EntryFits;
    if es != [] {
      EntryIsWritten(es[0]);
      EntriesAreWritten(es[1..]);
      assert forall i :: 1 <= i < |es| ==> es[i] == es[1..][i - 1];
    }
  }

  lemma {:induction false} EntryIsWritten(e: Entry)
    ensures EntryBytes(e).Ok? <==> EntryFits(e)
    decreases e
  {
    hide ValueBytes, Fits;
    ValueIsWritten(e.key);
    ValueIsWritten(e.val);
  }
}
