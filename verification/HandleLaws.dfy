/** What the operators leave in the handles, in plain arithmetic, and the laws that runs of them obey. */
module HandleLaws {
  import opened Digits
  import opened Handles
  import opened LongArithmetic
  import opened Operators

  /** All five forms of + leave the sum, whatever the form of the operands. */
  lemma Sums(m: map<Handle, Held>, h: Handle, x: Handle, y: Handle, k: Digit)
    requires h !in m && x in m && y in m
    ensures Enabled(m, Binary(h, x, Plus, y)) && Next(m, Binary(h, x, Plus, y))[h].value == m[x].value + m[y].value
    ensures Enabled(m, Compound(x, Plus, y)) && Next(m, Compound(x, Plus, y))[x].value == m[x].value + m[y].value
    ensures Enabled(m, BinaryShort(h, x, Plus, k)) && Next(m, BinaryShort(h, x, Plus, k))[h].value == m[x].value + k
    ensures Enabled(m, CompoundShort(x, Plus, k)) && Next(m, CompoundShort(x, Plus, k))[x].value == m[x].value + k
    ensures Enabled(m, ShortBinary(h, k, Plus, x)) && Next(m, ShortBinary(h, k, Plus, x))[h].value == k + m[x].value
  {
  }

  lemma Products(m: map<Handle, Held>, h: Handle, x: Handle, y: Handle, k: Digit)
    requires h !in m && x in m && y in m
    ensures Enabled(m, Binary(h, x, Times, y)) && Next(m, Binary(h, x, Times, y))[h].value == m[x].value * m[y].value
    ensures Enabled(m, Compound(x, Times, y)) && Next(m, Compound(x, Times, y))[x].value == m[x].value * m[y].value
    ensures Enabled(m, BinaryShort(h, x, Times, k)) && Next(m, BinaryShort(h, x, Times, k))[h].value == m[x].value * k
    ensures Enabled(m, CompoundShort(x, Times, k)) && Next(m, CompoundShort(x, Times, k))[x].value == m[x].value * k
    ensures Enabled(m, ShortBinary(h, k, Times, x)) && Next(m, ShortBinary(h, k, Times, x))[h].value == k * m[x].value
  {
  }

  /** All five forms of - are for subtrahends that are not larger, and adding these again gives the minuend. */
  lemma Differences(m: map<Handle, Held>, h: Handle, x: Handle, y: Handle, k: Digit)
    requires h !in m && x in m && y in m
    ensures Enabled(m, Binary(h, x, Minus, y)) <==> m[y].value <= m[x].value && m[y].canonical
    ensures Enabled(m, Compound(x, Minus, y)) <==> m[y].value <= m[x].value && m[y].canonical
    ensures Enabled(m, BinaryShort(h, x, Minus, k)) <==> k <= m[x].value
    ensures Enabled(m, CompoundShort(x, Minus, k)) <==> k <= m[x].value
    ensures Enabled(m, ShortBinary(h, k, Minus, x)) <==> m[x].value <= k
    ensures m[y].value <= m[x].value && m[y].canonical ==>
      && Next(m, Binary(h, x, Minus, y))[h].value + m[y].value == m[x].value
      && Next(m, Compound(x, Minus, y))[x].value + m[y].value == m[x].value
    ensures k <= m[x].value ==>
      && Next(m, BinaryShort(h, x, Minus, k))[h].value + k == m[x].value
      && Next(m, CompoundShort(x, Minus, k))[x].value + k == m[x].value
    ensures m[x].value <= k ==> Next(m, ShortBinary(h, k, Minus, x))[h].value + m[x].value == k
  {
  }

  /** Quotient q and remainder r of a by b. */
  lemma DivisionLaw(a: nat, b: nat)
    requires b != 0
    ensures a == (a / b) * b + a % b && a % b < b
  {
  }

  /** What / and % leave satisfies dividend == quotient * divisor + remainder with remainder < divisor, in all five forms. */
  lemma Quotients(m: map<Handle, Held>, h: Handle, x: Handle, y: Handle, k: Digit)
    requires h !in m && x in m && y in m
    ensures m[y].value != 0 && m[x].canonical && m[y].canonical ==>
      && Enabled(m, Binary(h, x, Over, y)) && Enabled(m, Binary(h, x, Modulo, y))
      && Enabled(m, Compound(x, Over, y)) && Enabled(m, Compound(x, Modulo, y))
      && (var q, r := Next(m, Binary(h, x, Over, y))[h].value, Next(m, Binary(h, x, Modulo, y))[h].value;
          m[x].value == q * m[y].value + r && r < m[y].value)
      && (var q, r := Next(m, Compound(x, Over, y))[x].value, Next(m, Compound(x, Modulo, y))[x].value;
          m[x].value == q * m[y].value + r && r < m[y].value)
    ensures k != 0 ==>
      && Enabled(m, BinaryShort(h, x, Over, k)) && Enabled(m, BinaryShort(h, x, Modulo, k))
      && Enabled(m, CompoundShort(x, Over, k)) && Enabled(m, CompoundShort(x, Modulo, k))
      && (var q, r := Next(m, BinaryShort(h, x, Over, k))[h].value, Next(m, BinaryShort(h, x, Modulo, k))[h].value;
          m[x].value == q * k + r && r < k)
      && (var q, r := Next(m, CompoundShort(x, Over, k))[x].value, Next(m, CompoundShort(x, Modulo, k))[x].value;
          m[x].value == q * k + r && r < k)
    ensures m[x].value != 0 && m[x].canonical ==>
      && Enabled(m, ShortBinary(h, k, Over, x)) && Enabled(m, ShortBinary(h, k, Modulo, x))
      && (var q, r := Next(m, ShortBinary(h, k, Over, x))[h].value, Next(m, ShortBinary(h, k, Modulo, x))[h].value;
          k == q * m[x].value + r && r < m[x].value)
  {
    if m[y].value != 0 { DivisionLaw(m[x].value, m[y].value); }
    if k != 0 { DivisionLaw(m[x].value, k); }
    if m[x].value != 0 { DivisionLaw(k, m[x].value); }
  }

  /** Making, copying, assigning and destroying handles; the others keep what they hold. */
  lemma Moves(m: map<Handle, Held>, h: Handle, x: Handle, y: Handle, n: nat, k: Digit)
    requires h !in m && x in m && y in m
    ensures Enabled(m, Create(h, n)) <==> n < 0x1_0000_0000
    ensures n < 0x1_0000_0000 ==> Next(m, Create(h, n)) == m[h := Held(n, true)]
    ensures Enabled(m, Copy(h, x)) && Next(m, Copy(h, x)) == m[h := m[x]]
    ensures Enabled(m, Destroy(x)) && Next(m, Destroy(x)) == m - {x}
    ensures Enabled(m, Assign(x, y)) && Next(m, Assign(x, y)) == m[x := m[y]]
    ensures Enabled(m, AssignShort(x, k)) && Next(m, AssignShort(x, k)) == m[x := Held(k, true)]
  {
  }

  /** Steps are by one, and what a step behind its operand returns is the value before. */
  lemma Steps(m: map<Handle, Held>, h: Handle, x: Handle)
    requires h !in m && x in m
    ensures Enabled(m, Step(x, false)) && Next(m, Step(x, false))[x].value == m[x].value + 1
    ensures Enabled(m, PostStep(h, x, false))
    ensures var after := Next(m, PostStep(h, x, false)); after[h] == m[x] && after[x].value == m[x].value + 1
    ensures Enabled(m, Step(x, true)) <==> m[x].value != 0
    ensures Enabled(m, PostStep(h, x, true)) <==> m[x].value != 0
    ensures m[x].value != 0 ==> Next(m, Step(x, true))[x].value == m[x].value - 1
    ensures m[x].value != 0 ==>
      var after := Next(m, PostStep(h, x, true)); after[h] == m[x] && after[x].value == m[x].value - 1
  {
  }

  lemma {:induction false} AfterOneMore(m: map<Handle, Held>, run: seq<Op>, a: Op)
    requires AllEnabled(m, run) && Enabled(After(m, run), a)
    ensures AllEnabled(m, run + [a]) && After(m, run + [a]) == Next(After(m, run), a)
    decreases |run|
  {
    hide Enabled, Next;
    var all := run + [a];
    if run == [] {
      assert all[0] == a && all[1..] == [];
    } else {
      assert all[0] == run[0] && all[1..] == run[1..] + [a];
      AfterOneMore(Next(m, run[0]), run[1..], a);
    }
  }

  lemma AfterTwo(m: map<Handle, Held>, a: Op, b: Op)
    requires Enabled(m, a) && Enabled(Next(m, a), b)
    ensures AllEnabled(m, [a, b]) && After(m, [a, b]) == Next(Next(m, a), b)
  {
    hide Enabled, Next;
    AfterOneMore(m, [], a);
    AfterOneMore(m, [a], b);
    assert [] + [a] == [a] && [a] + [b] == [a, b];
  }

  /** Subtracting what was added gives every handle its value back. */
  lemma AddThenSubtract(m: map<Handle, Held>, x: Handle, y: Handle)
    requires x in m && y in m && x != y && m[y].canonical
    ensures var run := [Compound(x, Plus, y), Compound(x, Minus, y)];
      AllEnabled(m, run) && After(m, run).Keys == m.Keys && forall g :: g in m ==> After(m, run)[g].value == m[g].value
  {
    AfterTwo(m, Compound(x, Plus, y), Compound(x, Minus, y));
  }

  /** Dividing by what was multiplied with gives every handle its value back. */
  lemma MultiplyThenDivide(m: map<Handle, Held>, x: Handle, y: Handle)
    requires x in m && y in m && x != y && m[x].canonical && m[y].canonical && m[y].value != 0
    ensures var run := [Compound(x, Times, y), Compound(x, Over, y)];
      AllEnabled(m, run) && After(m, run).Keys == m.Keys && forall g :: g in m ==> After(m, run)[g].value == m[g].value
  {
    QuotientOfProduct(m[x].value, m[y].value);
    AfterTwo(m, Compound(x, Times, y), Compound(x, Over, y));
  }

  lemma QuotientOfProduct(a: nat, b: nat)
    requires b != 0
    ensures a * b / b == a
  {
    DivModUnique(a * b, b, a, 0);
  }

  /** A step and the step back leave every handle as it was, on either side of the operand. */
  lemma StepThenBack(m: map<Handle, Held>, x: Handle)
    requires x in m
    ensures var run := [Step(x, false), Step(x, true)]; AllEnabled(m, run) && After(m, run) == m
  {
    AfterTwo(m, Step(x, false), Step(x, true));
  }

  /** Two sums with the same summands in either order, and products likewise, are the same. */
  lemma Commutes(m: map<Handle, Held>, h: Handle, x: Handle, y: Handle, op: Operator)
    requires h !in m && x in m && y in m && (op.Plus? || op.Times?)
    ensures Enabled(m, Binary(h, x, op, y)) && Enabled(m, Binary(h, y, op, x))
    ensures Next(m, Binary(h, x, op, y)) == Next(m, Binary(h, y, op, x))
  {
  }

  /** x * (y + z) is x * y + x * z. */
  lemma Distributes(m: map<Handle, Held>, x: Handle, y: Handle, z: Handle, g: Handle, h: Handle)
    requires x in m && y in m && z in m && g !in m && h !in m && g != h && x != y
    ensures var sum := [Compound(y, Plus, z), Compound(x, Times, y)];
      AllEnabled(m, sum) && x in After(m, sum)
      && var parts := [Binary(g, x, Times, y), Binary(h, x, Times, z)];
      AllEnabled(m, parts) && g in After(m, parts) && h in After(m, parts)
      && After(m, sum)[x].value == After(m, parts)[g].value + After(m, parts)[h].value
  {
    AfterTwo(m, Compound(y, Plus, z), Compound(x, Times, y));
    AfterTwo(m, Binary(g, x, Times, y), Binary(h, x, Times, z));
    MulDistributes(m[x].value, m[y].value, m[z].value);
  }

  /** As long as no number of several digits is multiplied by a 16-bit zero, all numbers stay canonical. */
  lemma StaysCanonical(m: map<Handle, Held>, a: Op)
    requires Enabled(m, a) && forall g :: g in m ==> m[g].canonical
    requires a.CompoundShort? && a.op.Times? && a.k == 0 ==> m[a.x].value < 65536
    requires a.BinaryShort? && a.op.Times? && a.k == 0 ==> m[a.x].value < 65536
    requires a.ShortBinary? && a.op.Times? && a.k == 0 ==> m[a.x].value < 65536
    ensures forall g :: g in Next(m, a) ==> Next(m, a)[g].canonical
  {
  }
}
