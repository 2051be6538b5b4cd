/** The TypeScript syntax the emitter builds, as an abstract tree: the
    nodes the `typescript` factory functions would create, without their
    printed form. */
module TsAst {
  /** `SyntaxKind.StringKeyword` and `SyntaxKind.NumberKeyword`. */
  datatype KeywordType = StringKeyword | NumberKeyword

  /** A parameter declaration `name: type`. */
  datatype Parameter = Parameter(name: string, typeKeyword: KeywordType)

  /** The literal text after a template span's expression: a middle piece
      or the tail that closes the template. */
  datatype TemplateLiteral = TemplateMiddle(text: string) | TemplateTail(text: string)

  /** `${identifier}` followed by its literal text. */
  datatype TemplateSpan = TemplateSpan(identifier: string, literal: TemplateLiteral)

  datatype Expression =
    | StringLiteral(s: string)
    | NumericLiteral(n: int)
    /** `createLiteral(NaN)`, what `parseInt` gives for a key without digits. */
    | NaNLiteral
    | BooleanLiteral(b: bool)
    /** `createLiteral(SyntaxKind.UndefinedKeyword)`, the emitter's fallback.
        The enum member is a number, so the number overload applies: this
        is the numeric literal of the keyword's kind, not `undefined`. */
    | KeywordKindLiteral
    | Identifier(name: string)
    /** `left === right` */
    | StrictEquals(left: Expression, right: Expression)
    | ArrayLiteral(elements: seq<Expression>)
    | ObjectLiteral(properties: seq<PropertyAssignment>)
    | TemplateExpression(head: string, spans: seq<TemplateSpan>)
    | ArrowFunction(parameters: seq<Parameter>, body: ArrowBody)

  datatype PropertyAssignment = PropertyAssignment(name: string, initializer: Expression)

  /** An arrow function's body: one expression, or a block of statements. */
  datatype ArrowBody = ExpressionBody(expression: Expression) | BlockBody(statements: seq<Statement>)

  datatype Statement =
    | If(condition: Expression, thenStatements: seq<Statement>)
    | Return(expression: Expression)
}
