/** Big integers as reference-counted, copy-on-write handles on records. */
module Handles {
  import opened Digits
  import opened LongArithmetic
  import opened Operators
  import opened Records

  type Address = DataRecord
  // The big integer objects of a program.
  type Handle = nat

  /** What a handle holds: a number, with or without superfluous leading zeros. */
  datatype Held = Held(value: nat, canonical: bool)

  ghost function HeldBy(digits: seq<Digit>): Held
  {
    Held(Number(digits), Canonical(digits))
  }

  /** What is in a record. */
  datatype Rec = Rec(digits: seq<Digit>, size: nat, references: nat)

  /** The handles bound to an address. */
  ghost function Owners(handles: map<Handle, Address>, r: Address): set<Handle>
  {
    set h | h in handles && handles[h] == r
  }

  ghost function RefCount(handles: map<Handle, Address>, r: Address): nat
  {
    |Owners(handles, r)|
  }

  /** Rebinding a handle takes it from its old record and gives it to its new one. */
  lemma CountRebound(handles: map<Handle, Address>, h: Handle, r': Address, r: Address)
    ensures RefCount(handles[h := r'], r) == RefCount(handles, r) + (if r == r' then 1 else 0)
                                           - (if h in handles && handles[h] == r then 1 else 0)
  {
    var before, after := Owners(handles, r), Owners(handles[h := r'], r);
    assert after == if r == r' then before + {h} else before - {h};
  }

  lemma CountUnbound(handles: map<Handle, Address>, h: Handle, r: Address)
    requires h in handles
    ensures RefCount(handles - {h}, r) == RefCount(handles, r) - (if handles[h] == r then 1 else 0)
  {
    assert Owners(handles - {h}, r) == Owners(handles, r) - {h};
  }

  lemma CountNone(handles: map<Handle, Address>, r: Address)
    requires forall h :: h in handles ==> handles[h] != r
    ensures RefCount(handles, r) == 0
  {
    assert Owners(handles, r) == {};
  }

  /** A record with one handle has no other. */
  lemma OnlyOwner(handles: map<Handle, Address>, h: Handle)
    requires h in handles && RefCount(handles, handles[h]) == 1
    ensures forall g :: g in handles && g != h ==> handles[g] != handles[h]
  {
    var owners := Owners(handles, handles[h]);
    assert h in owners && |owners - {h}| == 0;
    forall g | g in handles && g != h
      ensures handles[g] != handles[h]
    {
      assert g !in owners - {h};
    }
  }

  /** The record at r is well formed and its reference count is its number of handles, at least one. */
  ghost predicate Counted(records: map<Address, Rec>, handles: map<Handle, Address>, r: Address)
    requires r in records
  {
    var rec := records[r];
    1 <= |rec.digits| <= rec.size && rec.references == RefCount(handles, r) >= 1
  }

  /** No handle dangles and no record leaks. */
  ghost predicate ValidState(records: map<Address, Rec>, handles: map<Handle, Address>)
  {
    && (forall h :: h in handles ==> handles[h] in records)
    && (forall r :: r in records ==> Counted(records, handles, r))
  }

  /** A record is live exactly as long as some handle is bound to it. */
  lemma LiveWhileOwned(records: map<Address, Rec>, handles: map<Handle, Address>, r: Address)
    requires ValidState(records, handles)
    ensures r in records <==> exists h :: h in handles && handles[h] == r
    ensures r in records ==> records[r].references == RefCount(handles, r)
  {
    if r in records {
      assert Counted(records, handles, r);
      var h :| h in Owners(handles, r);
      assert h in handles && handles[h] == r;
    }
  }

  /** What every handle holds. */
  ghost function ValuesOf(records: map<Address, Rec>, handles: map<Handle, Address>): (m: map<Handle, Held>)
    requires ValidState(records, handles)
    ensures m.Keys == handles.Keys
  {
    map h | h in handles :: HeldBy(records[handles[h]].digits)
  }

  /** The records once one reference to r is given up; the last one deletes it. */
  ghost function Dropped(records: map<Address, Rec>, r: Address): map<Address, Rec>
    requires r in records && records[r].references >= 1
  {
    if records[r].references == 1 then records - {r}
    else records[r := records[r].(references := records[r].references - 1)]
  }

  /** The records once r has one more reference. */
  ghost function Shared(records: map<Address, Rec>, r: Address): map<Address, Rec>
    requires r in records
  {
    records[r := records[r].(references := records[r].references + 1)]
  }

  /** A handle that leaves its record for a new one. */
  lemma RebindValid(records: map<Address, Rec>, handles: map<Handle, Address>, x: Handle, temp: Address, rec: Rec)
    requires ValidState(records, handles) && x in handles && temp !in records
    requires 1 <= |rec.digits| <= rec.size && rec.references == 1
    ensures handles[x] in records && records[handles[x]].references >= 1
    ensures var after := Dropped(records[temp := rec], handles[x]); var bound := handles[x := temp];
      && ValidState(after, bound)
      && ValuesOf(after, bound) == ValuesOf(records, handles)[x := HeldBy(rec.digits)]
  {
    hide RefCount, HeldBy;
    var r := handles[x];
    assert Counted(records, handles, r);
    var after, bound := Dropped(records[temp := rec], r), handles[x := temp];
    CountNone(handles, temp);
    if records[r].references == 1 { OnlyOwner(handles, x); }
    forall s | s in after
      ensures Counted(after, bound, s)
    {
      CountRebound(handles, x, temp, s);
      if s != temp { assert Counted(records, handles, s); }
    }
  }

  /** A handle that changes a record it alone owns. */
  lemma InPlaceCounted(records: map<Address, Rec>, handles: map<Handle, Address>, x: Handle, rec: Rec)
    requires ValidState(records, handles) && x in handles && rec.references == records[handles[x]].references
    requires 1 <= |rec.digits| <= rec.size
    ensures ValidState(records[handles[x] := rec], handles)
  {
    hide RefCount, HeldBy;
    var after := records[handles[x] := rec];
    forall s | s in after
      ensures Counted(after, handles, s)
    {
      assert Counted(records, handles, s);
    }
  }

  lemma InPlaceValid(records: map<Address, Rec>, handles: map<Handle, Address>, x: Handle, rec: Rec)
    requires ValidState(records, handles) && x in handles
    requires records[handles[x]].references == rec.references == 1
    requires 1 <= |rec.digits| <= rec.size
    ensures var after := records[handles[x] := rec];
      && ValidState(after, handles)
      && ValuesOf(after, handles) == ValuesOf(records, handles)[x := HeldBy(rec.digits)]
  {
    InPlaceCounted(records, handles, x, rec);
    hide RefCount, HeldBy;
    assert Counted(records, handles, handles[x]);
    OnlyOwner(handles, x);
    hide Counted;
  }

  /** A new handle on an existing record. */
  lemma ShareValid(records: map<Address, Rec>, handles: map<Handle, Address>, x: Handle, item: Handle)
    requires ValidState(records, handles) && x !in handles && item in handles
    ensures var r := handles[item]; var after := Shared(records, r); var bound := handles[x := r];
      && ValidState(after, bound)
      && ValuesOf(after, bound) == ValuesOf(records, handles)[x := ValuesOf(records, handles)[item]]
  {
    hide RefCount, HeldBy;
    var r := handles[item];
    var after, bound := Shared(records, r), handles[x := r];
    forall s | s in after
      ensures Counted(after, bound, s)
    {
      assert Counted(records, handles, s);
      CountRebound(handles, x, r, s);
    }
  }

  /** A new handle on a new record. */
  lemma BindValid(records: map<Address, Rec>, handles: map<Handle, Address>, x: Handle, temp: Address, rec: Rec)
    requires ValidState(records, handles) && x !in handles && temp !in records
    requires 1 <= |rec.digits| <= rec.size && rec.references == 1
    ensures var after := records[temp := rec]; var bound := handles[x := temp];
      && ValidState(after, bound)
      && ValuesOf(after, bound) == ValuesOf(records, handles)[x := HeldBy(rec.digits)]
  {
    hide RefCount, HeldBy;
    var after, bound := records[temp := rec], handles[x := temp];
    CountNone(handles, temp);
    forall s | s in after
      ensures Counted(after, bound, s)
    {
      CountRebound(handles, x, temp, s);
      if s != temp { assert Counted(records, handles, s); }
    }
  }

  /** A handle that goes away. */
  lemma UnbindValid(records: map<Address, Rec>, handles: map<Handle, Address>, x: Handle)
    requires ValidState(records, handles) && x in handles
    ensures handles[x] in records && records[handles[x]].references >= 1
    ensures var after := Dropped(records, handles[x]); var bound := handles - {x};
      && ValidState(after, bound)
      && ValuesOf(after, bound) == ValuesOf(records, handles) - {x}
  {
    hide RefCount, HeldBy;
    var r := handles[x];
    assert Counted(records, handles, r);
    var after, bound := Dropped(records, r), handles - {x};
    if records[r].references == 1 { OnlyOwner(handles, x); }
    forall s | s in after
      ensures Counted(after, bound, s)
    {
      CountUnbound(handles, x, s);
      assert Counted(records, handles, s);
    }
  }

  /** Going away and coming back on another record is assignment. */
  lemma AssignValid(records: map<Address, Rec>, handles: map<Handle, Address>, x: Handle, y: Handle)
    requires ValidState(records, handles) && x in handles && y in handles && x != y
    ensures handles[x] in records && records[handles[x]].references >= 1
    ensures handles[y] in Dropped(records, handles[x])
    ensures var r := handles[y]; var after := Shared(Dropped(records, handles[x]), r); var bound := handles[x := r];
      && ValidState(after, bound)
      && ValuesOf(after, bound) == ValuesOf(records, handles)[x := ValuesOf(records, handles)[y]]
  {
    hide RefCount, Number, Canonical, Dropped, Shared;
    var left := handles - {x};
    UnbindValid(records, handles, x);
    ShareValid(Dropped(records, handles[x]), left, x, y);
    assert left[x := handles[y]] == handles[x := handles[y]];
  }

  /** A post-increment hands the old record to the new handle h and gives x a new record. */
  lemma PostValid(records: map<Address, Rec>, handles: map<Handle, Address>, h: Handle, x: Handle, temp: Address, rec: Rec)
    requires ValidState(records, handles) && x in handles && h !in handles && temp !in records
    requires 1 <= |rec.digits| <= rec.size && rec.references == 1
    ensures var after := records[temp := rec]; var bound := handles[h := handles[x]][x := temp];
      && ValidState(after, bound)
      && ValuesOf(after, bound)
         == ValuesOf(records, handles)[h := ValuesOf(records, handles)[x]][x := HeldBy(rec.digits)]
  {
    hide RefCount, HeldBy;
    var r := handles[x];
    var shared := Shared(records, r);
    assert Counted(records, handles, r);
    ShareValid(records, handles, h, x);
    RebindValid(shared, handles[h := r], x, temp, rec);
    assert Dropped(shared[temp := rec], r) == records[temp := rec];
  }

  /** What a program that uses big integers can do to its handles. */
  datatype Op =
    | Create(h: Handle, n: nat)
    | Copy(h: Handle, item: Handle)
    | Destroy(x: Handle)
    | Assign(x: Handle, y: Handle)
    | AssignShort(x: Handle, k: Digit)
    | Compound(x: Handle, op: Operator, y: Handle)
    | CompoundShort(x: Handle, op: Operator, k: Digit)
    | Binary(h: Handle, x: Handle, op: Operator, y: Handle)
    | BinaryShort(h: Handle, x: Handle, op: Operator, k: Digit)
    | ShortBinary(h: Handle, k: Digit, op: Operator, x: Handle)
    | Step(x: Handle, down: bool)
    | PostStep(h: Handle, x: Handle, down: bool)

  /** A long operator looks at the values of its operands, and may rely on their canonical form. */
  predicate LongAllowed(op: Operator, l: Held, r: Held)
  {
    Allowed(op, l.value, r.value) && LongAccepts(op, l.canonical, r.canonical)
  }

  function LongResult(op: Operator, l: Held, r: Held): Held
    requires LongAllowed(op, l, r)
  {
    Held(Apply(op, l.value, r.value), op.Plus? || op.Times? ==> l.canonical && r.canonical)
  }

  /** Multiplying several digits by zero leaves a zero with leading zeros. */
  function ShortResult(op: Operator, l: Held, k: Digit): Held
    requires Allowed(op, l.value, k)
  {
    Held(Apply(op, l.value, k), op.Modulo? || (l.canonical && KeepsCanonical(op, l.value, k)))
  }

  /** Whether a 16-bit number can be on the left: / and % go by the number of digits of the other operand. */
  predicate LeftAllowed(op: Operator, k: Digit, r: Held)
  {
    Allowed(op, k, r.value) && (op.Over? || op.Modulo? ==> r.canonical)
  }

  function LeftResult(op: Operator, k: Digit, r: Held): Held
    requires LeftAllowed(op, k, r)
  {
    Held(Apply(op, k, r.value), op.Plus? || op.Times? ==> ShortResult(op, r, k).canonical)
  }

  predicate StepAllowed(l: Held, down: bool)
  {
    down ==> l.value != 0
  }

  function Stepped(l: Held, down: bool): Held
    requires StepAllowed(l, down)
  {
    Held(if down then l.value - 1 else l.value + 1, l.canonical)
  }

  predicate Enabled(m: map<Handle, Held>, a: Op)
  {
    match a
    case Create(h, n) => h !in m && n < 0x1_0000_0000
    case Copy(h, item) => h !in m && item in m
    case Destroy(x) => x in m
    case Assign(x, y) => x in m && y in m
    case AssignShort(x, k) => x in m
    case Compound(x, op, y) => x in m && y in m && LongAllowed(op, m[x], m[y])
    case CompoundShort(x, op, k) => x in m && Allowed(op, m[x].value, k)
    case Binary(h, x, op, y) => h !in m && x in m && y in m && LongAllowed(op, m[x], m[y])
    case BinaryShort(h, x, op, k) => h !in m && x in m && Allowed(op, m[x].value, k)
    case ShortBinary(h, k, op, x) => h !in m && x in m && LeftAllowed(op, k, m[x])
    case Step(x, down) => x in m && StepAllowed(m[x], down)
    case PostStep(h, x, down) => h !in m && x in m && StepAllowed(m[x], down)
  }

  /** The same operations on handles that simply hold numbers, and what is certain about their form. */
  function Next(m: map<Handle, Held>, a: Op): map<Handle, Held>
    requires Enabled(m, a)
  {
    match a
    case Create(h, n) => m[h := Held(n, true)]
    case Copy(h, item) => m[h := m[item]]
    case Destroy(x) => m - {x}
    case Assign(x, y) => m[x := m[y]]
    case AssignShort(x, k) => m[x := Held(k, true)]
    case Compound(x, op, y) => m[x := LongResult(op, m[x], m[y])]
    case CompoundShort(x, op, k) => m[x := ShortResult(op, m[x], k)]
    case Binary(h, x, op, y) => m[h := LongResult(op, m[x], m[y])]
    case BinaryShort(h, x, op, k) => m[h := ShortResult(op, m[x], k)]
    case ShortBinary(h, k, op, x) => m[h := LeftResult(op, k, m[x])]
    case Step(x, down) => m[x := Stepped(m[x], down)]
    case PostStep(h, x, down) => m[h := m[x]][x := Stepped(m[x], down)]
  }

  /** The value is the claimed one, and the form is canonical if that is claimed. */
  predicate AtLeast(claim: Held, actual: Held)
  {
    claim.value == actual.value && (claim.canonical ==> actual.canonical)
  }

  ghost predicate Describes(m: map<Handle, Held>, actual: map<Handle, Held>)
  {
    m.Keys == actual.Keys && forall h :: h in m ==> AtLeast(m[h], actual[h])
  }

  /** Only x has changed, and as claimed. */
  ghost predicate Becomes(before: map<Handle, Held>, after: map<Handle, Held>, x: Handle, claim: Held)
  {
    x in after && after == before[x := after[x]] && AtLeast(claim, after[x])
  }

  /** An operation possible by what is certain is possible, and has at least the certain effect. */
  lemma NextDescribes(m: map<Handle, Held>, actual: map<Handle, Held>, a: Op)
    requires Describes(m, actual) && Enabled(m, a)
    ensures Enabled(actual, a) && Describes(Next(m, a), Next(actual, a))
  {
    hide Apply;
  }

  lemma DescribesItself(m: map<Handle, Held>)
    ensures Describes(m, m)
  {
  }

  lemma DescribesTransitive(m: map<Handle, Held>, between: map<Handle, Held>, actual: map<Handle, Held>)
    requires Describes(m, between) && Describes(between, actual)
    ensures Describes(m, actual)
  {
  }

  predicate AllEnabled(m: map<Handle, Held>, run: seq<Op>)
    decreases |run|
  {
    run == [] || (Enabled(m, run[0]) && AllEnabled(Next(m, run[0]), run[1..]))
  }

  function After(m: map<Handle, Held>, run: seq<Op>): map<Handle, Held>
    requires AllEnabled(m, run)
    decreases |run|
  {
    if run == [] then m else After(Next(m, run[0]), run[1..])
  }

  /** The handles an operation writes. */
  function Written(a: Op): set<Handle>
  {
    match a
    case PostStep(h, x, down) => {h, x}
    case Create(h, _) => {h}
    case Copy(h, _) => {h}
    case Binary(h, _, _, _) => {h}
    case BinaryShort(h, _, _, _) => {h}
    case ShortBinary(h, _, _, _) => {h}
    case _ => {a.x}
  }

  /** Over any run a handle that no operation writes keeps its value. */
  lemma {:induction false} OthersUntouched(m: map<Handle, Held>, run: seq<Op>, g: Handle)
    requires AllEnabled(m, run) && g in m
    requires forall a :: a in run ==> g !in Written(a)
    ensures g in After(m, run) && After(m, run)[g] == m[g]
    decreases |run|
  {
    if run != [] {
      assert run[0] in run;
      OthersUntouched(Next(m, run[0]), run[1..], g);
    }
  }

  /** The size of the record a long operator makes for its result. */
  function NewSize(op: Operator, l: nat, r: nat): nat
  {
    match op
    case Plus => (if l < r then r else l) + SLACK
    case Times => l + r + SLACK
    case _ => l + SLACK
  }

  /** When a compound operator writes into the record it has: sums that fit, and all differences. */
  predicate InPlace(op: Operator, l: nat, r: nat, size: nat)
  {
    op.Minus? || (op.Plus? && (if l < r then r else l) < size)
  }

  lemma OneWord(data: DataRecord, k: Digit)
    requires data.Ok() && data.digitsUsed == 1 && data.number[0] == k
    ensures data.Proper() && data.Value() == k
  {
    assert data.Digits() == [k];
    OneDigitNumber([k]);
  }

  lemma TwoDigits(data: DataRecord, n: nat)
    requires data.Ok() && data.number.Length >= 2 && n < 0x1_0000_0000
    requires data.number[0] == n % 65536 && data.number[1] == n / 65536
    requires data.digitsUsed == if data.number[1] != 0 then 2 else 1
    ensures data.Proper() && data.Value() == n
  {
    var low, high := data.number[0], data.number[1];
    OneDigitNumber([low]);
    OneDigitNumber([high]);
    assert [low, high][1..] == [high];
    assert data.Digits() == if high != 0 then [low, high] else [low];
  }

  lemma Commutes(op: Operator, a: nat, k: nat)
    requires op.Plus? || op.Times?
    ensures Apply(op, a, k) == Apply(op, k, a)
  {
  }

  /** A 16-bit number minus, over or modulo a big one looks at one digit of the big one at most. */
  method ShortLeft(op: Operator, k: Digit, data: DataRecord) returns (d: Digit)
    requires op.Minus? || op.Over? || op.Modulo?
    requires data.Ok() && Allowed(op, k, data.Value()) && (op.Minus? || data.Proper())
    ensures d == Apply(op, k, data.Value())
  {
    if data.Proper() { OneDigit(data.Digits()); }
    if op.Minus? {
      LowDigit(data.Digits());
      d := k - data.number[0];
    } else if data.digitsUsed == 1 {
      d := if op.Over? then k / data.number[0] else k % data.number[0];
    } else {
      SmallDividend(k, data.Value());
      d := if op.Over? then 0 else k;
    }
  }

  /** A number below the base is its lowest digit. */
  lemma LowDigit(s: seq<Digit>)
    requires |s| >= 1 && Val(s) < 65536
    ensures Val(s) == s[0]
  {
    ValBound(s[1..]);
  }

  lemma SmallDividend(a: nat, b: nat)
    requires a < b
    ensures a / b == 0 && a % b == a
  {
  }

  ghost function Contents(r: DataRecord): Rec
    requires r.Ok()
    reads r, r.number
  {
    Rec(r.Digits(), r.number.Length, r.references)
  }

  /** Well-formed records, within a footprint, that share no buffers. */
  ghost predicate Formed(records: set<DataRecord>, repr: set<object>)
    reads repr
  {
    && (forall r :: r in records ==> r in repr && r.number in repr && r.Ok())
    && (forall r, s :: r in records && s in records && r != s ==> r.number != s.number)
  }

  ghost function StateOf(records: set<DataRecord>, repr: set<object>): (state: map<DataRecord, Rec>)
    requires Formed(records, repr)
    reads repr
    ensures state.Keys == records
  {
    map r | r in records :: Contents(r)
  }

  lemma StateHolds(records: set<DataRecord>, repr: set<object>)
    requires Formed(records, repr)
    ensures forall r :: r in records ==> r.Ok() && StateOf(records, repr)[r] == Contents(r)
  {
  }

  lemma NewContents(temp: DataRecord)
    requires temp.Ok() && temp.references == 1
    ensures var rec := Contents(temp);
      1 <= |rec.digits| <= rec.size && rec.references == 1 && HeldBy(rec.digits) == Held(temp.Value(), temp.Proper())
  {
  }

  lemma OneMore(records: set<DataRecord>, repr: set<object>, temp: DataRecord)
    requires Formed(records, repr) && temp.Ok() && temp !in repr && temp.number !in repr
    ensures Formed(records + {temp}, repr + {temp, temp.number}) && temp !in records
    ensures StateOf(records + {temp}, repr + {temp, temp.number}) == StateOf(records, repr)[temp := Contents(temp)]
  {
  }

  lemma OneLess(records: set<DataRecord>, repr: set<object>, r: DataRecord)
    requires Formed(records, repr)
    ensures Formed(records - {r}, repr) && StateOf(records - {r}, repr) == StateOf(records, repr) - {r}
  {
  }

  /** The big integer objects of a program and their records. */
  class Heap {
    // The record that each big integer object points to.
    var handles: map<Handle, DataRecord>
    // The records that have been allocated and not deleted.
    ghost var records: set<DataRecord>
    ghost var repr: set<object>

    constructor ()
      ensures Valid() && Values() == map[] && repr == {}
    {
      handles, records, repr := map[], {}, {};
    }

    ghost predicate Valid()
      reads this, repr
    {
      this !in repr && Formed(records, repr) && ValidState(StateOf(records, repr), handles)
    }

    ghost function Values(): (m: map<Handle, Held>)
      requires Valid()
      reads this, repr
      ensures m.Keys == handles.Keys
    {
      ValuesOf(StateOf(records, repr), handles)
    }

    /** What validity says about the record of a handle. */
    lemma Alive(x: Handle)
      requires Valid() && x in handles
      ensures handles[x] in records && handles[x] in repr && handles[x].number in repr
      ensures handles[x].Ok() && handles[x].references >= 1
      ensures x in Values() && Values()[x] == Held(handles[x].Value(), handles[x].Proper())
    {
      assert Counted(StateOf(records, repr), handles, handles[x]);
    }

    /** A record of which the program does not know yet. */
    ghost predicate IsNew(temp: DataRecord)
      reads this`repr, temp, temp.number
    {
      temp.Ok() && temp.references == 1 && temp !in repr && temp.number !in repr
    }

    /** A handle on a record that nobody else owns. */
    method Bind(h: Handle, temp: DataRecord)
      requires Valid() && h !in handles && IsNew(temp)
      modifies this
      ensures Valid() && Values() == old(Values())[h := Held(temp.Value(), temp.Proper())] && repr == old(repr) + {temp, temp.number}
    {
      hide ValidState, ValuesOf, Formed, StateOf, Contents, Canonical, Number, HeldBy, Val;
      NewContents(temp);
      OneMore(records, repr, temp);
      BindValid(StateOf(records, repr), handles, h, temp, Contents(temp));
      records, repr := records + {temp}, repr + {temp, temp.number};
      handles := handles[h := temp];
    }

    /** Gives up one reference to a record; the last one deletes it. */
    method Release(r: DataRecord)
      requires this !in repr && Formed(records, repr) && r in records && r.references >= 1
      modifies this`records, r`references
      ensures Formed(records, repr) && StateOf(records, repr) == Dropped(old(StateOf(records, repr)), r)
    {
      if r.references != 1 {
        r.references := r.references - 1;
      } else {
        OneLess(records, repr, r);
        records := records - {r};
      }
    }

    /** Makes a handle share an existing record. */
    method Attach(x: Handle, r: DataRecord)
      requires this !in repr && Formed(records, repr) && r in records
      modifies this`handles, r`references
      ensures handles == old(handles)[x := r]
      ensures Formed(records, repr) && StateOf(records, repr) == Shared(old(StateOf(records, repr)), r)
    {
      handles := handles[x := r];
      r.references := r.references + 1;
    }

    /** The handle leaves its record for one that nobody else owns. */
    method Rebind(x: Handle, temp: DataRecord)
      requires Valid() && x in handles && IsNew(temp)
      modifies this, repr
      ensures Valid() && Values() == old(Values())[x := Held(temp.Value(), temp.Proper())] && repr == old(repr) + {temp, temp.number}
    {
      hide ValidState, ValuesOf, Formed, StateOf, Contents, Canonical, Number, HeldBy, Val;
      hide Dropped;
      Alive(x);
      NewContents(temp);
      OneMore(records, repr, temp);
      RebindValid(StateOf(records, repr), handles, x, temp, Contents(temp));
      records, repr := records + {temp}, repr + {temp, temp.number};
      Release(handles[x]);
      handles := handles[x := temp];
    }

    /** A handle gives its record to a new one and gets one that nobody else owns. */
    method HandOver(h: Handle, x: Handle, temp: DataRecord)
      requires Valid() && h !in handles && x in handles && IsNew(temp)
      modifies this
      ensures Valid() && Values() == old(Values())[h := old(Values()[x])][x := Held(temp.Value(), temp.Proper())]
      ensures repr == old(repr) + {temp, temp.number}
    {
      hide ValidState, ValuesOf, Formed, StateOf, Contents, Canonical, Number, HeldBy, Val;
      NewContents(temp);
      OneMore(records, repr, temp);
      PostValid(StateOf(records, repr), handles, h, x, temp, Contents(temp));
      records, repr := records + {temp}, repr + {temp, temp.number};
      handles := handles[h := handles[x]][x := temp];
    }

    /** The handle has changed its record, which nobody else owns. */
    lemma Stored(before: map<DataRecord, Rec>, x: Handle)
      requires this !in repr && Formed(records, repr) && before.Keys == records && ValidState(before, handles) && x in handles
      requires handles[x] in records && handles[x].Ok()
      requires before[handles[x]].references == handles[x].references == 1
      requires forall r :: r in records && r != handles[x] ==> Contents(r) == before[r]
      ensures Valid() && Values() == ValuesOf(before, handles)[x := Held(handles[x].Value(), handles[x].Proper())]
    {
      hide ValidState, ValuesOf, Canonical, Number, Val;
      var d := handles[x];
      NewContents(d);
      InPlaceValid(before, handles, x, Contents(d));
      assert StateOf(records, repr) == before[d := Contents(d)];
    }

    method Create(h: Handle, n: nat)
      requires Valid() && h !in handles && n < 0x1_0000_0000
      modifies this
      ensures Valid() && Values() == old(Values())[h := Held(n, true)] && fresh(repr - old(repr))
    {
      hide ValidState, ValuesOf, Formed, StateOf, Contents, Canonical, Number, HeldBy, Val;
      var data := new DataRecord(SLACK);
      data.number[0] := n % 65536;
      data.number[1] := n / 65536;
      if data.number[1] != 0 {
        data.digitsUsed := 2;
      }
      TwoDigits(data, n);
      Bind(h, data);
    }

    method Copy(h: Handle, item: Handle)
      requires Valid() && h !in handles && item in handles
      modifies this, repr
      ensures Valid() && Values() == old(Values())[h := old(Values()[item])] && repr == old(repr)
    {
      hide ValidState, ValuesOf, Formed, StateOf, Contents, Canonical, Number, HeldBy, Val;
      hide Counted, Shared;
      Alive(item);
      ShareValid(StateOf(records, repr), handles, h, item);
      Attach(h, handles[item]);
    }

    method Destroy(x: Handle)
      requires Valid() && x in handles
      modifies this, repr
      ensures Valid() && Values() == old(Values()) - {x} && repr == old(repr)
    {
      hide ValidState, ValuesOf, Formed, StateOf, Contents, Canonical, Number, HeldBy, Val;
      hide Dropped;
      Alive(x);
      UnbindValid(StateOf(records, repr), handles, x);
      Release(handles[x]);
      handles := handles - {x};
    }

    method Assign(x: Handle, y: Handle)
      requires Valid() && x in handles && y in handles
      modifies this, repr
      ensures Valid() && Values() == old(Values())[x := old(Values()[y])] && repr == old(repr)
    {
      hide ValidState, ValuesOf, Formed, StateOf, Contents, Canonical, Number, HeldBy, Val, Counted, Dropped, Shared;
      if x == y {
        return;
      }
      Alive(x);
      Alive(y);
      AssignValid(StateOf(records, repr), handles, x, y);
      Release(handles[x]);
      Attach(x, handles[y]);
    }

    method AssignShort(x: Handle, k: Digit)
      requires Valid() && x in handles
      modifies this, repr
      ensures Valid() && Values() == old(Values())[x := Held(k, true)] && fresh(repr - old(repr))
    {
      hide ValidState, ValuesOf, StateOf, Canonical, Number, HeldBy, Val, Apply;
      Alive(x);
      if handles[x].references != 1 {
        var data := new DataRecord(SLACK);
        data.number[0] := k;
        OneWord(data, k);
        Rebind(x, data);
      } else {
        ghost var before := StateOf(records, repr);
        StateHolds(records, repr);
        handles[x].digitsUsed := 1;
        handles[x].number[0] := k;
        OneWord(handles[x], k);
        Stored(before, x);
      }
    }

    /** The operators +=, -=, *=, /= and %=. */
    method Compound(x: Handle, op: Operator, y: Handle)
      requires Valid() && x in handles && y in handles && LongAllowed(op, Values()[x], Values()[y])
      modifies this, repr
      ensures Valid() && fresh(repr - old(repr))
      ensures Becomes(old(Values()), Values(), x, LongResult(op, old(Values()[x]), old(Values()[y])))
    {
      hide ValidState, ValuesOf, Formed, StateOf, Contents, Canonical, Number, HeldBy, Val, Apply;
      Alive(x);
      Alive(y);
      var data, rhs := handles[x], handles[y];
      if data.references != 1 || !InPlace(op, data.digitsUsed, rhs.digitsUsed, data.number.Length) {
        var temp := new DataRecord(NewSize(op, data.digitsUsed, rhs.digitsUsed));
        RunLongKernel(op, data, rhs, temp);
        Rebind(x, temp);
      } else {
        CompoundInPlace(x, op, y);
      }
    }

    /** The compound operators + and - write into a record that nobody else owns. */
    method CompoundInPlace(x: Handle, op: Operator, y: Handle)
      requires Valid() && x in handles && y in handles && LongAllowed(op, Values()[x], Values()[y])
      requires handles[x].references == 1 && handles[x].Ok() && handles[y].Ok()
      requires InPlace(op, handles[x].digitsUsed, handles[y].digitsUsed, handles[x].number.Length)
      modifies repr
      ensures Valid() && Becomes(old(Values()), Values(), x, LongResult(op, old(Values()[x]), old(Values()[y])))
    {
      hide ValidState, ValuesOf, StateOf, Canonical, Number, HeldBy, Val, Apply;
      Alive(x);
      Alive(y);
      ghost var before := StateOf(records, repr);
      StateHolds(records, repr);
      RunLongKernel(op, handles[x], handles[y], handles[x]);
      Stored(before, x);
    }

    /** The compound operators with a 16-bit right-hand side. */
    method CompoundShort(x: Handle, op: Operator, k: Digit)
      requires Valid() && x in handles && Allowed(op, Values()[x].value, k)
      modifies this, repr
      ensures Valid() && fresh(repr - old(repr))
      ensures Becomes(old(Values()), Values(), x, ShortResult(op, old(Values()[x]), k))
      ensures old(Values()[x]).canonical ==> Values()[x] == ShortResult(op, old(Values()[x]), k)
    {
      hide ValidState, ValuesOf, StateOf, Canonical, Number, HeldBy, Val, Apply;
      Alive(x);
      var data := handles[x];
      if data.references != 1 || ((op.Plus? || op.Times?) && data.digitsUsed == data.number.Length) {
        var temp := new DataRecord(data.digitsUsed + SLACK);
        RunShortKernel(op, data, k, temp);
        Rebind(x, temp);
      } else {
        ghost var before := StateOf(records, repr);
        StateHolds(records, repr);
        RunShortKernel(op, data, k, data);
        Stored(before, x);
      }
    }

    /** The operators ++ and -- in front of their operand. */
    method Step(x: Handle, down: bool)
      requires Valid() && x in handles && StepAllowed(Values()[x], down)
      modifies this, repr
      ensures Valid() && fresh(repr - old(repr))
      ensures Becomes(old(Values()), Values(), x, Stepped(old(Values()[x]), down))
    {
      hide ValidState, ValuesOf, StateOf, Canonical, Number, HeldBy, Val, Apply;
      Alive(x);
      var data := handles[x];
      if data.references != 1 || (!down && data.digitsUsed == data.number.Length) {
        var temp := new DataRecord(data.digitsUsed + SLACK);
        RunStep(down, data, temp);
        Rebind(x, temp);
      } else {
        ghost var before := StateOf(records, repr);
        StateHolds(records, repr);
        RunStep(down, data, data);
        Stored(before, x);
      }
    }

    /** The operators ++ and -- behind their operand; h is what they return. */
    method PostStep(h: Handle, x: Handle, down: bool)
      requires Valid() && h !in handles && x in handles && StepAllowed(Values()[x], down)
      modifies this, repr
      ensures Valid() && fresh(repr - old(repr))
      ensures Becomes(old(Values())[h := old(Values()[x])], Values(), x, Stepped(old(Values()[x]), down))
    {
      hide ValidState, ValuesOf, Formed, StateOf, Contents, Canonical, Number, HeldBy, Val;
      Alive(x);
      var temp := new DataRecord(handles[x].digitsUsed + SLACK);
      RunStep(down, handles[x], temp);
      HandOver(h, x, temp);
    }

    /** The operators +, -, *, / and %; h is what they return. */
    method Binary(h: Handle, x: Handle, op: Operator, y: Handle)
      requires Valid() && h !in handles && x in handles && y in handles && LongAllowed(op, Values()[x], Values()[y])
      modifies this
      ensures Valid() && fresh(repr - old(repr))
      ensures Becomes(old(Values()), Values(), h, LongResult(op, old(Values()[x]), old(Values()[y])))
    {
      hide ValidState, ValuesOf, Formed, StateOf, Contents, Canonical, Number, HeldBy, Val;
      Alive(x);
      Alive(y);
      var data, rhs := handles[x], handles[y];
      var temp := new DataRecord(NewSize(op, data.digitsUsed, rhs.digitsUsed));
      RunLongKernel(op, data, rhs, temp);
      Bind(h, temp);
    }

    method BinaryShort(h: Handle, x: Handle, op: Operator, k: Digit)
      requires Valid() && h !in handles && x in handles && Allowed(op, Values()[x].value, k)
      modifies this
      ensures Valid() && fresh(repr - old(repr))
      ensures Becomes(old(Values()), Values(), h, ShortResult(op, old(Values()[x]), k))
      ensures old(Values()[x]).canonical ==> Values()[h] == ShortResult(op, old(Values()[x]), k)
    {
      hide ValidState, ValuesOf, Formed, StateOf, Contents, Canonical, Number, HeldBy, Val;
      Alive(x);
      var temp := new DataRecord(handles[x].digitsUsed + SLACK);
      RunShortKernel(op, handles[x], k, temp);
      Bind(h, temp);
    }

    /** The binary operators with a 16-bit left-hand side. */
    method ShortBinary(h: Handle, k: Digit, op: Operator, x: Handle)
      requires Valid() && h !in handles && x in handles && LeftAllowed(op, k, Values()[x])
      modifies this
      ensures Valid() && fresh(repr - old(repr))
      ensures Becomes(old(Values()), Values(), h, LeftResult(op, k, old(Values()[x])))
      ensures old(Values()[x]).canonical ==> Values()[h] == LeftResult(op, k, old(Values()[x]))
    {
      hide ValidState, ValuesOf, Formed, StateOf, Contents, Canonical, Number, HeldBy, Val;
      Alive(x);
      if op.Plus? || op.Times? {
        Commutes(op, handles[x].Value(), k);
        BinaryShort(h, x, op, k);
      } else {
        var temp := new DataRecord(SLACK);
        var d := ShortLeft(op, k, handles[x]);
        temp.number[0] := d;
        OneWord(temp, d);
        Bind(h, temp);
      }
    }

    method Perform(a: Op)
      requires Valid() && Enabled(Values(), a)
      modifies this, repr
      ensures Valid() && fresh(repr - old(repr)) && Describes(Next(old(Values()), a), Values())
    {
      hide ValidState, ValuesOf, Formed, StateOf, Apply;
      match a {
        case Create(h, n) => Create(h, n);
        case Copy(h, item) => Copy(h, item);
        case Destroy(x) => Destroy(x);
        case Assign(x, y) => Assign(x, y);
        case AssignShort(x, k) => AssignShort(x, k);
        case Compound(x, op, y) => Compound(x, op, y);
        case CompoundShort(x, op, k) => CompoundShort(x, op, k);
        case Binary(h, x, op, y) => Binary(h, x, op, y);
        case BinaryShort(h, x, op, k) => BinaryShort(h, x, op, k);
        case ShortBinary(h, k, op, x) => ShortBinary(h, k, op, x);
        case Step(x, down) => Step(x, down);
        case PostStep(h, x, down) => PostStep(h, x, down);
      }
    }

    /**
     * Copy-on-write is invisible: any run leaves the values it would leave if every handle held its own number,
     * and canonical form wherever it is certain.
     */
    method Run(run: seq<Op>)
      requires Valid() && AllEnabled(Values(), run)
      modifies this, repr
      ensures Valid() && fresh(repr - old(repr)) && Describes(After(old(Values()), run), Values())
    {
      hide Enabled, Next, ValidState, ValuesOf, Formed, StateOf, Describes;
      ghost var m := Values();
      DescribesItself(m);
      var i := 0;
      while i < |run|
        invariant 0 <= i <= |run| && Valid() && fresh(repr - old(repr))
        invariant AllEnabled(m, run[i..]) && Describes(m, Values())
        invariant After(m, run[i..]) == After(old(Values()), run)
      {
        assert run[i..][0] == run[i] && run[i..][1..] == run[i + 1..];
        NextDescribes(m, Values(), run[i]);
        ghost var next := Next(Values(), run[i]);
        Perform(run[i]);
        DescribesTransitive(Next(m, run[i]), next, Values());
        m := Next(m, run[i]);
        i := i + 1;
      }
    }
  }
}
