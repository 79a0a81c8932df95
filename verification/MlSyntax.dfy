/** The abstract syntax of the ML interpreter (ml/parse.h:13-79). */
module MlSyntax {

  /** The operators in the order of their parsing functions, loosest first; the last one is function
      application, which the source writes as the empty operator. */
  datatype Operator = Cons | Greater | Less | Add | Sub | Mul | Div | Apply {
    function Symbol(): string {
      match this
      case Cons => "::"
      case Greater => ">"
      case Less => "<"
      case Add => "+"
      case Sub => "-"
      case Mul => "*"
      case Div => "/"
      case Apply => ""
    }
  }

  datatype Expr =
    | If(cond: Expr, thn: Expr, els: Expr)
    | Name(name: string)
    | Num(num: int)
    | Op(op: Operator, a: Expr, b: Expr)
    | Fn(param: string, body: Expr)

  /** num_t is a 32-bit int.  Where C leaves overflow undefined, this takes the result modulo 2^32. */
  function Wrap(n: int): (r: int)
    ensures -0x8000_0000 <= r < 0x8000_0000
    ensures (r - n) % 0x1_0000_0000 == 0
    ensures -0x8000_0000 <= n < 0x8000_0000 ==> r == n
  {
    (n + 0x8000_0000) % 0x1_0000_0000 - 0x8000_0000
  }
}
