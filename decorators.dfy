/**
 * The decorator factories of BehaviorTree.c as values: what each one writes
 * into a freshly zeroed Decorator. Allocation itself is Arena's business.
 */
module Decorators {
  import opened Types

  /** createEmptyDecorator: every field zeroed, so the kind is Invert (enumeration value 0). */
  function Empty(): (d: Decorator)
    ensures DecoratorTypeOf(d.kind) == Some(Invert)
    ensures d.param == 0 && d.refCount == 0
  {
    Decorator(0, 0, 0)
  }

  /** The kinds whose factory argument is stored into the parameter cell. */
  predicate ReadsParam(kind: int)
  {
    DecoratorTypeOf(kind) in {Some(Repeat), Some(RepeatUntilSuccess), Some(Delay)}
  }

  /**
   * createDecorator(type, param): the kind is stored as given; the parameter
   * is read through the pointer only for Repeat, RepeatUntilSuccess and
   * Delay, which therefore need a non-NULL pointer.
   */
  function Make(kind: int, param: Option<uint32>): (d: Decorator)
    requires ReadsParam(kind) ==> param.Some?
    ensures d.kind == kind && d.refCount == 0
    ensures d.param == if ReadsParam(kind) then param.value else 0
  {
    var base := Empty().(kind := kind);
    match DecoratorTypeOf(kind)
    case Some(Repeat) => base.(param := param.value)
    case Some(RepeatUntilSuccess) => base.(param := param.value)
    case Some(Delay) => base.(param := param.value)
    case _ => base
  }

  /** createRepeatDecorator(n). */
  function RepeatOf(n: uint32): Decorator
  {
    Empty().(kind := DecoratorTypeCode(Repeat), param := n)
  }

  /** createDelayDecorator(n): it writes the `repeat` member of the union, which is the delay. */
  function DelayOf(n: uint32): Decorator
  {
    Empty().(kind := DecoratorTypeCode(Delay), param := n)
  }

  /** createConditionalDecorator(). */
  function ConditionalOf(): Decorator
  {
    Empty().(kind := DecoratorTypeCode(Conditional))
  }

  /**
   * The dedicated factories build exactly what the generic one builds, and
   * the delay a Delay decorator will sleep for is the number it was created
   * with even though the factory writes the `repeat` member.
   */
  lemma FactoriesAgreeWithMake(n: uint32, p: Option<uint32>)
    ensures RepeatOf(n) == Make(DecoratorTypeCode(Repeat), Some(n))
    ensures DelayOf(n) == Make(DecoratorTypeCode(Delay), Some(n))
    ensures DelayOf(n).param == n && DecoratorTypeOf(DelayOf(n).kind) == Some(Delay)
    ensures ConditionalOf() == Make(DecoratorTypeCode(Conditional), p)
    ensures Empty() == Make(DecoratorTypeCode(Invert), p)
    ensures RepeatOf(n).refCount == 0 && DelayOf(n).refCount == 0 && ConditionalOf().refCount == 0
  {
  }
}
