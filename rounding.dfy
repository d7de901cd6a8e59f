/** Rounding-mode control (src/rounding.rs): the four IEEE 754-2008
    (section 4.3) rounding directions, their C99 `<fenv.h>` codes as x86
    defines them (section 7.6.3 of ISO/IEC 9899:1999), the decoding of a raw
    code, and `set`/`execute` over the floating-point environment. The
    platform's rounding register is simulated by the class `FloatEnv`. */
module RoundingControl {
  import opened Prelude

  /** The integer widths the source converts between. */
  type i32 = x: int | -0x8000_0000 <= x < 0x8000_0000
  type i64 = x: int | -0x8000_0000_0000_0000 <= x < 0x8000_0000_0000_0000
  type u64 = x: int | 0 <= x < 0x1_0000_0000_0000_0000

  datatype Rounding = ToNearest | Downward | Upward | TowardZero

  /** The four raw codes the platform understands. */
  const CODES: set<i32> := {0x0000, 0x0400, 0x0800, 0x0C00}

  /** The enum discriminant, which the source passes to `fesetround`. */
  function Code(m: Rounding): (c: i32)
    ensures c in CODES
  {
    match m
    case ToNearest => 0x0000
    case Downward => 0x0400
    case Upward => 0x0800
    case TowardZero => 0x0C00
  }

  /** `from_i64`: decodes a raw code; every other integer is `None`. */
  function FromI64(n: i64): (r: Option<Rounding>)
    ensures r.Some? <==> n in CODES
    ensures r.Some? ==> Code(r.value) == n
  {
    match n
    case 0x0000 => Some(ToNearest)
    case 0x0400 => Some(Downward)
    case 0x0800 => Some(Upward)
    case 0x0C00 => Some(TowardZero)
    case _ => None
  }

  /** The cast `n as i64`: reinterprets the 64 bits in two's complement. */
  function AsI64(n: u64): (r: i64)
    ensures r % 0x1_0000_0000_0000_0000 == n
    ensures n < 0x8000_0000_0000_0000 <==> r == n
  {
    if n < 0x8000_0000_0000_0000 then n else n - 0x1_0000_0000_0000_0000
  }

  /** `from_u64`: decodes through `from_i64` after the cast. Values at or
      above 2^63 become negative and are never a code. */
  function FromU64(n: u64): (r: Option<Rounding>)
    ensures r.Some? <==> n in CODES
    ensures r.Some? ==> Code(r.value) == n
  {
    FromI64(AsI64(n))
  }

  /** Decoding inverts the discriminant. */
  lemma DecodeCode(m: Rounding)
    ensures FromI64(Code(m)) == Some(m)
    ensures FromU64(Code(m)) == Some(m)
  {
    match m
    case ToNearest =>
    case Downward =>
    case Upward =>
    case TowardZero =>
  }

  /** The four discriminants are distinct, so the encoding is injective. */
  lemma CodeInjective(m1: Rounding, m2: Rounding)
    ensures Code(m1) == Code(m2) <==> m1 == m2
  {
    DecodeCode(m1);
    DecodeCode(m2);
  }

  /** Below 2^63 the unsigned decoder agrees with the signed one. */
  lemma FromU64AgreesWithFromI64(n: u64)
    requires n < 0x8000_0000_0000_0000
    ensures FromU64(n) == FromI64(n)
  {
  }

  /** What the body run by `execute` does: the value it produces and the
      mode, if any, it sets before returning. */
  datatype Scoped<R> = Scoped(value: R, switchTo: Option<Rounding>)

  /** The floating-point environment: a rounding register that `fesetround`
      writes and `fegetround` reads, on a platform that accepts the codes in
      `supported`. */
  class FloatEnv {
    var register: i32
    const supported: set<i32>

    ghost predicate Valid()
      reads this
    {
      supported <= CODES && register in supported
    }

    constructor (supported: set<i32>, initial: Rounding)
      requires supported <= CODES && Code(initial) in supported
      ensures Valid()
      ensures this.supported == supported && register == Code(initial)
    {
      this.supported := supported;
      register := Code(initial);
    }

    /** The register after `fesetround(flag)` on `reg`. */
    function Applied(flag: int, reg: i32): i32 {
      if flag in supported then flag else reg
    }

    /** The status `fesetround(flag)` returns: 0 on success. */
    function Status(flag: int): i32 {
      if flag in supported then 0 else 1
    }

    /** The simulated `fesetround`. */
    method FeSetRound(flag: i32) returns (status: i32)
      modifies this
      ensures status == Status(flag)
      ensures register == Applied(flag, old(register))
    {
      if flag in supported {
        register := flag;
        status := 0;
      } else {
        status := 1;
      }
    }

    /** `current`: decodes what `fegetround` reports. */
    function Current(): (r: Option<Rounding>)
      reads this
      ensures Valid() ==> r.Some? && Code(r.value) == register
    {
      FromI64(register)
    }

    /** `set`: Ok exactly when the platform call reports status 0. */
    method Set(mode: Rounding) returns (res: Result<(), ()>)
      requires Valid()
      modifies this
      ensures Valid()
      ensures res.Ok? <==> Code(mode) in supported
      ensures register == if res.Ok? then Code(mode) else old(register)
    {
      var status := FeSetRound(Code(mode));
      if status == 0 {
        res := Ok(());
      } else {
        res := Err(());
      }
    }

    /** `execute` as written: it saves the STATUS of the first
        `fesetround`, not the previous mode, and writes that back. */
    method Execute<R>(mode: Rounding, body: i32 -> Scoped<R>) returns (r: R)
      requires Valid()
      modifies this
      ensures Valid()
      ensures var during := Applied(Code(mode), old(register));
              var out := body(during);
              var afterBody := if out.switchTo.Some? then Applied(Code(out.switchTo.value), during) else during;
              r == out.value && register == Applied(Status(Code(mode)), afterBody)
      ensures Code(mode) in supported && Code(ToNearest) in supported ==> register == Code(ToNearest)
    {
      var saved := FeSetRound(Code(mode));
      var out := body(register);
      if out.switchTo.Some? {
        var ignored := FeSetRound(Code(out.switchTo.value));
      }
      var ignored := FeSetRound(saved);
      r := out.value;
    }

    /** `execute` as intended: saves the mode `fegetround` reports and
        restores it after the body, whatever the body did to the register. */
    method ExecuteRestoring<R>(mode: Rounding, body: i32 -> Scoped<R>) returns (r: R)
      requires Valid()
      modifies this
      ensures Valid()
      ensures r == body(Applied(Code(mode), old(register))).value
      ensures register == old(register)
    {
      var saved := register;
      var status := FeSetRound(Code(mode));
      var out := body(register);
      if out.switchTo.Some? {
        var ignored := FeSetRound(Code(out.switchTo.value));
      }
      var ignored := FeSetRound(saved);
      r := out.value;
    }
  }

  /** With the mode Upward active and every mode supported, a scope of
      Downward leaves the register at ToNearest instead of Upward. */
  method ExecuteForgetsPriorMode() returns (before: Option<Rounding>, during: i32, after: Option<Rounding>)
    ensures before == Some(Upward) && during == Code(Downward)
    ensures after == Some(ToNearest) && after != before
  {
    var env := new FloatEnv(CODES, Upward);
    before := env.Current();
    during := env.Execute(Downward, (active: i32) => Scoped(active, None));
    after := env.Current();
  }

  /** The corrected scope restores Upward, even when the body itself
      switches to TowardZero before returning. */
  method ExecuteRestoringKeepsPriorMode() returns (before: Option<Rounding>, during: i32, after: Option<Rounding>)
    ensures before == Some(Upward) && during == Code(Downward)
    ensures after == before
  {
    var env := new FloatEnv(CODES, Upward);
    before := env.Current();
    during := env.ExecuteRestoring(Downward, (active: i32) => Scoped(active, Some(TowardZero)));
    after := env.Current();
  }
}
