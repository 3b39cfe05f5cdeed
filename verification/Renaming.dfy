/** `alpha_rename`: two windows get the same tokens exactly when their mnemonics agree and a
    bijection of registers that fixes the pinned ones carries one operand sequence to the other. */
module Renaming {
  import opened Text
  import opened Windows

  /** The `mapping` dictionary: registers named so far. */
  type Names = map<Reg, string>

  function Name(k: nat): (s: string) { "r" + Decimal(k) }

  function Next(names: Names, register: Reg): Names {
    if register in PINNED || register in names then names else names[register := Name(|names|)]
  }

  function Role(names: Names, register: Reg): string {
    if register in names && register !in PINNED then names[register] else register
  }

  function Roles(registers: seq<Reg>, names: Names): (roles: seq<string>)
    ensures |roles| == |registers|
  {
    if registers == [] then [] else
      [Role(Next(names, registers[0]), registers[0])] + Roles(registers[1..], Next(names, registers[0]))
  }

  function NamesAfter(registers: seq<Reg>, names: Names): Names {
    if registers == [] then names else NamesAfter(registers[1..], Next(names, registers[0]))
  }

  function Token(mnemonic: string, roles: seq<string>): string {
    mnemonic + "(" + Join(roles, ',') + ")"
  }

  function Tokens(window: Window, names: Names): (tokens: seq<string>)
    ensures |tokens| == |window|
  {
    if window == [] then [] else
      [Token(window[0].mnemonic, Roles(window[0].registers, names))]
      + Tokens(window[1..], NamesAfter(window[0].registers, names))
  }

  function Alpha(window: Window): seq<string> { Tokens(window, map[]) }

  // ------------------------------------------------------------ the loop

  /** `rename`. */
  method Rename(mapping: Names, register: Reg) returns (role: string, mapping': Names)
    ensures mapping' == Next(mapping, register) && role == Role(mapping', register)
  {
    mapping' := mapping;
    if register in PINNED {
      return register, mapping';
    }
    if register !in mapping {
      mapping' := mapping[register := Name(|mapping|)];
    }
    role := mapping'[register];
  }

  method RenameAll(registers: seq<Reg>, mapping: Names) returns (roles: seq<string>, mapping': Names)
    ensures roles == Roles(registers, mapping) && mapping' == NamesAfter(registers, mapping)
  {
    roles, mapping' := [], mapping;
    assert registers[0..] == registers;
    for i := 0 to |registers|
      invariant roles + Roles(registers[i..], mapping') == Roles(registers, mapping)
      invariant NamesAfter(registers[i..], mapping') == NamesAfter(registers, mapping)
    {
      assert registers[i..][0] == registers[i] && registers[i..][1..] == registers[i + 1..];
      var role;
      role, mapping' := Rename(mapping', registers[i]);
      roles := roles + [role];
    }
  }

  /** `alpha_rename`. */
  method AlphaRename(window: Window) returns (tokens: seq<string>)
    ensures tokens == Alpha(window)
  {
    var mapping: Names := map[];
    tokens := [];
    assert window[0..] == window;
    for i := 0 to |window|
      invariant tokens + Tokens(window[i..], mapping) == Alpha(window)
    {
      assert window[i..][0] == window[i] && window[i..][1..] == window[i + 1..];
      var roles;
      roles, mapping := RenameAll(window[i].registers, mapping);
      tokens := tokens + [Token(window[i].mnemonic, roles)];
    }
  }

  // ------------------------------------------------------------ the equivalence it decides

  /** A bijection between registers that leaves the pinned ones alone. */
  ghost predicate FixesPinned(m: map<Reg, Reg>) {
    && (forall a, b :: a in m && b in m && m[a] == m[b] ==> a == b)
    && (forall a :: a in m && (a in PINNED || m[a] in PINNED) ==> m[a] == a)
  }

  ghost predicate Carries(m: map<Reg, Reg>, a: seq<Reg>, b: seq<Reg>) {
    |a| == |b| && forall k :: 0 <= k < |a| ==> a[k] in m && m[a[k]] == b[k]
  }

  ghost predicate CarriesWindow(m: map<Reg, Reg>, u: Window, w: Window) {
    |u| == |w| && forall i :: 0 <= i < |u| ==> u[i].mnemonic == w[i].mnemonic && Carries(m, u[i].registers, w[i].registers)
  }

  ghost predicate AlphaEqual(u: Window, w: Window) {
    exists m :: FixesPinned(m) && CarriesWindow(m, u, w)
  }

  // ------------------------------------------------------------ a bijection gives equal tokens

  /** The two dictionaries name corresponding registers alike. */
  ghost predicate Aligned(m: map<Reg, Reg>, p: Names, q: Names) {
    && |p| == |q|
    && (forall a :: a in m && a !in PINNED ==> (a in p <==> m[a] in q))
    && (forall a :: a in m && a in p && m[a] in q ==> p[a] == q[m[a]])
  }

  lemma AlignedNext(m: map<Reg, Reg>, p: Names, q: Names, a: Reg)
    requires FixesPinned(m) && Aligned(m, p, q) && a in m
    ensures Aligned(m, Next(p, a), Next(q, m[a]))
    ensures Role(Next(p, a), a) == Role(Next(q, m[a]), m[a])
  {
    if a !in PINNED && a !in p {
      assert m[a] !in q && m[a] !in PINNED;
    }
  }

  lemma {:induction false} AlignedRoles(m: map<Reg, Reg>, p: Names, q: Names, a: seq<Reg>, b: seq<Reg>)
    requires FixesPinned(m) && Aligned(m, p, q) && Carries(m, a, b)
    ensures Roles(a, p) == Roles(b, q) && Aligned(m, NamesAfter(a, p), NamesAfter(b, q))
    decreases |a|
  {
    if a != [] {
      AlignedNext(m, p, q, a[0]);
      assert m[a[0]] == b[0];
      AlignedRoles(m, Next(p, a[0]), Next(q, b[0]), a[1..], b[1..]);
    }
  }

  lemma {:induction false} AlignedTokens(m: map<Reg, Reg>, p: Names, q: Names, u: Window, w: Window)
    requires FixesPinned(m) && Aligned(m, p, q) && CarriesWindow(m, u, w)
    ensures Tokens(u, p) == Tokens(w, q)
    decreases |u|
  {
    if u != [] {
      AlignedRoles(m, p, q, u[0].registers, w[0].registers);
      AlignedTokens(m, NamesAfter(u[0].registers, p), NamesAfter(w[0].registers, q), u[1..], w[1..]);
    }
  }

  // ------------------------------------------------------------ equal tokens give a bijection

  /** Names are new, distinct, and never those of pinned registers. */
  ghost predicate WellNamed(names: Names) {
    && (forall a :: a in names ==> a !in PINNED && exists k: nat :: k < |names| && names[a] == Name(k))
    && (forall a, b :: a in names && b in names && names[a] == names[b] ==> a == b)
  }

  lemma NameFresh(j: nat, k: nat)
    ensures Name(j) == Name(k) ==> j == k
    ensures Name(k) !in PINNED && ',' !in Name(k) && Name(k) != ""
  {
    assert Name(j)[1..] == Decimal(j) && Name(k)[1..] == Decimal(k);
    if Name(j) == Name(k) {
      DecimalInjective(j, k);
    }
    assert Decimal(k)[0] in Decimal(k) && Name(k)[1] == Decimal(k)[0];
    forall ch | ch in Name(k) ensures ch != ',' {
      assert ch == 'r' || ch in Decimal(k);
    }
  }

  lemma NewName(names: Names, register: Reg)
    requires WellNamed(names) && register !in PINNED && register !in names
    ensures WellNamed(names[register := Name(|names|)])
  {
    var next := names[register := Name(|names|)];
    hide Name;
    forall a | a in next ensures a !in PINNED && exists k: nat :: k < |next| && next[a] == Name(k) {
      if a != register {
        var k: nat :| k < |names| && names[a] == Name(k);
      }
    }
    forall a | a in names ensures names[a] != Name(|names|) {
      var k: nat :| k < |names| && names[a] == Name(k);
      NameFresh(k, |names|);
    }
  }

  lemma WellNamedNext(names: Names, register: Reg)
    requires WellNamed(names)
    ensures WellNamed(Next(names, register))
    ensures register in PINNED || register in Next(names, register)
    ensures forall a <- names :: a in Next(names, register) && Next(names, register)[a] == names[a]
  {
    hide WellNamed;
    if register !in PINNED && register !in names {
      NewName(names, register);
    }
  }

  /** Later names extend earlier ones. */
  ghost predicate Extends(later: Names, names: Names) {
    forall a <- names :: a in later && later[a] == names[a]
  }

  ghost predicate Named(names: Names, register: Reg) { register in PINNED || register in names }

  /** Every role is the final dictionary's. */
  lemma {:induction false} RolesFinal(registers: seq<Reg>, names: Names, final: Names)
    requires WellNamed(names) && Extends(final, NamesAfter(registers, names))
    ensures WellNamed(NamesAfter(registers, names)) && Extends(NamesAfter(registers, names), names)
    ensures forall k :: 0 <= k < |registers| ==>
              Named(final, registers[k]) && Roles(registers, names)[k] == Role(final, registers[k])
  {
    if registers != [] {
      var next, rest := Next(names, registers[0]), registers[1..];
      hide WellNamed, Next, NamesAfter, Roles;
      RolesStep(registers, names);
      RolesFinal(rest, next, final);
      FirstRole(next, NamesAfter(rest, next), final, registers[0]);
      ExtendsTransitive(NamesAfter(rest, next), next, names);
      hide Role, Named, Extends;
      forall k | 0 < k < |registers|
        ensures Named(final, registers[k]) && Roles(registers, names)[k] == Role(final, registers[k])
      {
        assert rest[k - 1] == registers[k];
      }
    }
  }

  lemma RolesStep(registers: seq<Reg>, names: Names)
    requires registers != [] && WellNamed(names)
    ensures var next, rest := Next(names, registers[0]), registers[1..];
            && WellNamed(next) && Extends(next, names) && (registers[0] in PINNED || registers[0] in next)
            && NamesAfter(registers, names) == NamesAfter(rest, next)
            && Roles(registers, names) == [Role(next, registers[0])] + Roles(rest, next)
  {
    WellNamedNext(names, registers[0]);
    hide WellNamed, Next;
  }

  lemma ExtendsTransitive(x: Names, y: Names, z: Names)
    requires Extends(x, y) && Extends(y, z)
    ensures Extends(x, z)
  {}

  lemma FirstRole(next: Names, after: Names, final: Names, register: Reg)
    requires Extends(final, after) && Extends(after, next) && (register in PINNED || register in next)
    ensures Named(final, register) && Role(next, register) == Role(final, register)
  {
    ExtendsTransitive(final, after, next);
  }

  function FinalNames(window: Window, names: Names): Names {
    if window == [] then names else FinalNames(window[1..], NamesAfter(window[0].registers, names))
  }

  lemma {:induction false} FinalExtends(window: Window, names: Names)
    requires WellNamed(names)
    ensures WellNamed(FinalNames(window, names)) && Extends(FinalNames(window, names), names)
  {
    if window != [] {
      RolesFinal(window[0].registers, names, NamesAfter(window[0].registers, names));
      FinalExtends(window[1..], NamesAfter(window[0].registers, names));
    }
  }

  /** The roles of an instruction, read off the final dictionary. */
  function FinalRoles(final: Names, registers: seq<Reg>): (roles: seq<string>)
    ensures |roles| == |registers| && forall k :: 0 <= k < |roles| ==> roles[k] == Role(final, registers[k])
  {
    seq(|registers|, k requires 0 <= k < |registers| => Role(final, registers[k]))
  }

  lemma {:induction false} TokensFinal(window: Window, names: Names, final: Names)
    requires WellNamed(names) && final == FinalNames(window, names)
    ensures forall i :: 0 <= i < |window| ==>
              && Tokens(window, names)[i] == Token(window[i].mnemonic, FinalRoles(final, window[i].registers))
              && forall r <- window[i].registers :: Named(final, r)
  {
    if window != [] {
      var after := NamesAfter(window[0].registers, names);
      RolesFinal(window[0].registers, names, after);
      FinalExtends(window[1..], after);
      RolesFinal(window[0].registers, names, final);
      assert Roles(window[0].registers, names) == FinalRoles(final, window[0].registers);
      TokensFinal(window[1..], after, final);
    }
  }

  lemma RolePlain(final: Names, r: Reg)
    requires WellNamed(final) && Named(final, r)
    ensures Role(final, r) != "" && ',' !in Role(final, r)
    ensures Role(final, r) in PINNED <==> r in PINNED
  {
    if r !in PINNED {
      var k: nat :| k < |final| && final[r] == Name(k);
      NameFresh(k, k);
    }
  }

  lemma RoleInjective(final: Names, a: Reg, b: Reg)
    requires WellNamed(final) && Named(final, a) && Named(final, b) && Role(final, a) == Role(final, b)
    ensures a == b
  {
    RolePlain(final, a);
    RolePlain(final, b);
  }

  /** A token determines the mnemonic and the roles. */
  lemma TokenInjective(f: Names, g: Names, a: Instruction, b: Instruction)
    requires WellNamed(f) && WellNamed(g)
    requires forall r <- a.registers :: Named(f, r)
    requires forall r <- b.registers :: Named(g, r)
    requires '(' !in a.mnemonic && '(' !in b.mnemonic
    requires Token(a.mnemonic, FinalRoles(f, a.registers)) == Token(b.mnemonic, FinalRoles(g, b.registers))
    ensures a.mnemonic == b.mnemonic && FinalRoles(f, a.registers) == FinalRoles(g, b.registers)
  {
    var p, q := FinalRoles(f, a.registers), FinalRoles(g, b.registers);
    assert Token(a.mnemonic, p) == a.mnemonic + ['('] + (Join(p, ',') + ")");
    assert Token(b.mnemonic, q) == b.mnemonic + ['('] + (Join(q, ',') + ")");
    SplitAt(a.mnemonic, b.mnemonic, '(', Join(p, ',') + ")", Join(q, ',') + ")");
    assert Join(p, ',') == (Join(p, ',') + ")")[..|Join(p, ',')|] && Join(q, ',') == (Join(q, ',') + ")")[..|Join(q, ',')|];
    forall s | s in p ensures s != "" && ',' !in s {
      var k :| 0 <= k < |p| && p[k] == s;
      RolePlain(f, a.registers[k]);
    }
    forall s | s in q ensures s != "" && ',' !in s {
      var k :| 0 <= k < |q| && q[k] == s;
      RolePlain(g, b.registers[k]);
    }
    JoinInjective(p, q, ',');
  }

  function Used(w: Window): set<Reg> {
    set i, k | 0 <= i < |w| && 0 <= k < |w[i].registers| :: w[i].registers[k]
  }

  /** Same mnemonics and same roles, instruction by instruction. */
  ghost predicate SameRoles(f: Names, g: Names, u: Window, w: Window) {
    && |u| == |w|
    && (forall i :: 0 <= i < |u| ==> u[i].mnemonic == w[i].mnemonic && |u[i].registers| == |w[i].registers|)
    && (forall i, k :: 0 <= i < |u| && 0 <= k < |u[i].registers| && k < |w[i].registers| ==>
          && Named(f, u[i].registers[k]) && Named(g, w[i].registers[k])
          && Role(f, u[i].registers[k]) == Role(g, w[i].registers[k]))
  }

  /** The register of the second window with the same role. */
  ghost function Partner(f: Names, g: Names, r: Reg): Reg
    requires exists s :: Named(g, s) && Role(g, s) == Role(f, r)
  {
    var s :| Named(g, s) && Role(g, s) == Role(f, r);
    s
  }

  lemma HasPartner(f: Names, g: Names, u: Window, w: Window, r: Reg)
    requires SameRoles(f, g, u, w) && r in Used(u)
    ensures Named(f, r) && exists s :: Named(g, s) && Role(g, s) == Role(f, r)
  {
    var i, k :| 0 <= i < |u| && 0 <= k < |u[i].registers| && u[i].registers[k] == r;
    assert k < |w[i].registers|;
    assert Named(g, w[i].registers[k]);
  }

  /** Equal roles come from a bijection. */
  lemma RolesGiveBijection(f: Names, g: Names, u: Window, w: Window) returns (m: map<Reg, Reg>)
    requires WellNamed(f) && WellNamed(g) && SameRoles(f, g, u, w)
    ensures FixesPinned(m) && CarriesWindow(m, u, w)
  {
    forall r | r in Used(u) ensures Named(f, r) && exists s :: Named(g, s) && Role(g, s) == Role(f, r) {
      HasPartner(f, g, u, w, r);
    }
    m := map r | r in Used(u) :: Partner(f, g, r);
    hide SameRoles, Used, Partner;
    assert FixesPinned(m) by {
      forall a, b | a in m && b in m && m[a] == m[b] ensures a == b {
        PartnerIs(f, g, a);
        PartnerIs(f, g, b);
        RoleInjective(f, a, b);
      }
      forall a | a in m && (a in PINNED || m[a] in PINNED) ensures m[a] == a {
        PartnerIs(f, g, a);
        RolePlain(f, a);
        RolePlain(g, m[a]);
      }
    }
    forall i | 0 <= i < |u| ensures i < |w| && u[i].mnemonic == w[i].mnemonic && Carries(m, u[i].registers, w[i].registers) {
      PartnersCarry(f, g, u, w, m, i);
    }
    SameLength(f, g, u, w);
  }

  lemma SameLength(f: Names, g: Names, u: Window, w: Window)
    requires SameRoles(f, g, u, w)
    ensures |u| == |w|
  {}

  lemma PartnerIs(f: Names, g: Names, r: Reg)
    requires exists s :: Named(g, s) && Role(g, s) == Role(f, r)
    ensures Named(g, Partner(f, g, r)) && Role(g, Partner(f, g, r)) == Role(f, r)
  {}

  lemma PartnersCarry(f: Names, g: Names, u: Window, w: Window, m: map<Reg, Reg>, i: nat)
    requires WellNamed(g) && SameRoles(f, g, u, w) && i < |u|
    requires forall r :: r in m <==> r in Used(u)
    requires forall r <- m :: (exists s :: Named(g, s) && Role(g, s) == Role(f, r)) && m[r] == Partner(f, g, r)
    ensures i < |w| && u[i].mnemonic == w[i].mnemonic && Carries(m, u[i].registers, w[i].registers)
  {
    var a, b := u[i].registers, w[i].registers;
    forall k | 0 <= k < |a| ensures k < |b| && a[k] in m && m[a[k]] == b[k] {
      assert k < |b| && a[k] in Used(u);
      PartnerIs(f, g, a[k]);
      RoleInjective(g, m[a[k]], b[k]);
    }
  }

  predicate PlainMnemonics(w: Window) { forall i <- w :: '(' !in i.mnemonic }

  /** Equal tokens come from a bijection that fixes the pinned registers. */
  lemma TokensGiveBijection(u: Window, w: Window)
    requires PlainMnemonics(u) && PlainMnemonics(w) && Alpha(u) == Alpha(w)
    ensures AlphaEqual(u, w)
  {
    var f, g := FinalNames(u, map[]), FinalNames(w, map[]);
    FinalExtends(u, map[]);
    FinalExtends(w, map[]);
    TokensFinal(u, map[], f);
    TokensFinal(w, map[], g);
    hide Alpha, Tokens, Token, WellNamed, Extends, FinalNames, Role;
    assert |u| == |w| by {
      SizesAgree(u, w);
    }
    assert SameRoles(f, g, u, w) by {
      forall i | 0 <= i < |u|
        ensures u[i].mnemonic == w[i].mnemonic && FinalRoles(f, u[i].registers) == FinalRoles(g, w[i].registers)
      {
        AlphaAt(u, i);
        AlphaAt(w, i);
        TokenInjective(f, g, u[i], w[i]);
      }
      forall i, k | 0 <= i < |u| && 0 <= k < |u[i].registers| && k < |w[i].registers|
        ensures Role(f, u[i].registers[k]) == Role(g, w[i].registers[k])
      {
        assert FinalRoles(f, u[i].registers)[k] == FinalRoles(g, w[i].registers)[k];
      }
    }
    var m := RolesGiveBijection(f, g, u, w);
  }

  lemma SizesAgree(u: Window, w: Window)
    requires Alpha(u) == Alpha(w)
    ensures |u| == |w|
  {}

  lemma AlphaAt(w: Window, i: nat)
    requires i < |w|
    ensures Alpha(w)[i] == Tokens(w, map[])[i]
  {}

  /** The equivalence that `alpha_rename` decides. */
  lemma AlphaDecides(u: Window, w: Window)
    requires PlainMnemonics(u) && PlainMnemonics(w)
    ensures Alpha(u) == Alpha(w) <==> AlphaEqual(u, w)
  {
    if Alpha(u) == Alpha(w) {
      TokensGiveBijection(u, w);
    }
    if AlphaEqual(u, w) {
      var m :| FixesPinned(m) && CarriesWindow(m, u, w);
      AlignedTokens(m, map[], map[], u, w);
    }
  }

  /** Equal windows have equal sub-windows, although the renaming starts afresh in each. */
  lemma SubWindowsEqual(u: Window, w: Window, from: nat, to: nat)
    requires PlainMnemonics(u) && PlainMnemonics(w) && Alpha(u) == Alpha(w) && from <= to <= |u|
    ensures |u| == |w| && Alpha(u[from..to]) == Alpha(w[from..to])
  {
    AlphaDecides(u, w);
    var m :| FixesPinned(m) && CarriesWindow(m, u, w);
    var u', w' := u[from..to], w[from..to];
    assert CarriesWindow(m, u', w');
    AlphaDecides(u', w');
  }

  // ------------------------------------------------------------ which name a register gets

  /** All operands of a window, in order. */
  ghost function Operands(w: Window): seq<Reg> {
    if w == [] then [] else Operands(w[..|w| - 1]) + w[|w| - 1].registers
  }

  /** Some operand is `s` before any is `r`. */
  ghost predicate Earlier(operands: seq<Reg>, s: Reg, r: Reg) {
    exists j :: 0 <= j < |operands| && operands[j] == s && r !in operands[..j + 1]
  }

  /** The registers to be named before `r` is. */
  ghost function NamedBefore(operands: seq<Reg>, r: Reg): set<Reg> {
    set s | s in operands && s !in PINNED && Earlier(operands, s, r)
  }

  /** The dictionary after some operands: a name for each unpinned register, numbered by first appearance. */
  ghost predicate ByAppearance(names: Names, operands: seq<Reg>) {
    && (forall r :: r in names <==> r in operands && r !in PINNED)
    && (forall r :: r in names ==> names[r] == Name(|NamedBefore(operands, r)|))
  }

  lemma EarlierKept(operands: seq<Reg>, r: Reg, next: Reg)
    ensures r in operands ==> NamedBefore(operands + [next], r) == NamedBefore(operands, r)
    ensures r !in operands && r == next ==> NamedBefore(operands + [next], r) == set s | s in operands && s !in PINNED
  {
    var all := operands + [next];
    forall s ensures Earlier(operands, s, r) ==> Earlier(all, s, r) {
      if j :| 0 <= j < |operands| && operands[j] == s && r !in operands[..j + 1] {
        assert all[..j + 1] == operands[..j + 1] && all[j] == s;
      }
    }
    if r in operands || r == next {
      forall s ensures Earlier(all, s, r) ==> Earlier(operands, s, r) {
        if j :| 0 <= j < |all| && all[j] == s && r !in all[..j + 1] {
          NotLast(operands, r, next, j);
          assert all[..j + 1] == operands[..j + 1];
        }
      }
    }
    if r !in operands {
      forall s | s in operands ensures Earlier(operands, s, r) {
        var j :| 0 <= j < |operands| && operands[j] == s;
        assert r !in operands[..j + 1];
      }
    }
  }

  lemma NotLast(operands: seq<Reg>, r: Reg, next: Reg, j: nat)
    requires j <= |operands| && (r in operands || r == next)
    ensures r !in (operands + [next])[..j + 1] ==> j < |operands|
  {
    assert (operands + [next])[..|operands| + 1] == operands + [next];
  }

  lemma NextByAppearance(names: Names, operands: seq<Reg>, next: Reg)
    requires ByAppearance(names, operands)
    ensures ByAppearance(Next(names, next), operands + [next])
  {
    hide NamedBefore, Name, Earlier;
    forall r | r in Next(names, next)
      ensures r in operands + [next] && r !in PINNED
      ensures Next(names, next)[r] == Name(|NamedBefore(operands + [next], r)|)
    {
      EarlierKept(operands, r, next);
      if r !in names {
        KeysCount(names, operands);
      }
    }
  }

  lemma KeysCount(names: Names, operands: seq<Reg>)
    requires ByAppearance(names, operands)
    ensures |names| == |set s | s in operands && s !in PINNED|
  {
    hide NamedBefore, Name, PINNED;
    assert names.Keys == set s | s in operands && s !in PINNED;
  }

  lemma {:induction false} AfterByAppearance(names: Names, operands: seq<Reg>, registers: seq<Reg>)
    requires ByAppearance(names, operands)
    ensures ByAppearance(NamesAfter(registers, names), operands + registers)
    decreases |registers|
  {
    hide ByAppearance, Next;
    if registers == [] {
      assert operands + registers == operands;
    } else {
      NextByAppearance(names, operands, registers[0]);
      AfterByAppearance(Next(names, registers[0]), operands + [registers[0]], registers[1..]);
      assert operands + [registers[0]] + registers[1..] == operands + registers;
    }
  }

  lemma OperandsNext(before: Window, w: Window)
    requires w != []
    ensures Operands(before + [w[0]]) == Operands(before) + w[0].registers
    ensures before + [w[0]] + w[1..] == before + w
  {
    assert (before + [w[0]])[..|before|] == before;
  }

  lemma {:induction false} FinalByAppearance(w: Window, names: Names, before: Window)
    requires ByAppearance(names, Operands(before))
    ensures ByAppearance(FinalNames(w, names), Operands(before + w))
    decreases |w|
  {
    hide ByAppearance, NamesAfter, Operands, PINNED;
    if w == [] {
      assert before + w == before;
    } else {
      OperandsNext(before, w);
      AfterByAppearance(names, Operands(before), w[0].registers);
      FinalByAppearance(w[1..], NamesAfter(w[0].registers, names), before + [w[0]]);
    }
  }

  /** The tokens, read off the window: a pinned register stays, any other is an `r` with the number of
      registers named before its first operand. */
  lemma NamesByAppearance(w: Window, i: nat) returns (roles: seq<string>)
    requires i < |w|
    ensures Alpha(w)[i] == w[i].mnemonic + "(" + Join(roles, ',') + ")"
    ensures |roles| == |w[i].registers|
    ensures forall k :: 0 <= k < |roles| ==> var r := w[i].registers[k];
              roles[k] == if r in PINNED then r else "r" + Decimal(|NamedBefore(Operands(w), r)|)
  {
    var final := FinalNames(w, map[]);
    TokensFinal(w, map[], final);
    FinalByAppearance(w, map[], []);
    assert [] + w == w;
    AlphaAt(w, i);
    roles := FinalRoles(final, w[i].registers);
    hide Alpha, Tokens, FinalNames, NamedBefore, Operands, FinalRoles, WellNamed, Extends;
    forall k | 0 <= k < |roles|
      ensures var r := w[i].registers[k]; roles[k] == if r in PINNED then r else "r" + Decimal(|NamedBefore(Operands(w), r)|)
    {
      assert w[i].registers[k] in w[i].registers;
    }
  }
}
