/** `createParameters`: one typed parameter per placeholder argument. */
module ParameterCreation {
  import opened Intermediate
  import opened TsAst

  /** `mapType`: `number` for `Number`; every other type, `ToString`
      included, falls through to `string`. */
  function MapType(argType: ArgType): (k: KeywordType)
    ensures k == NumberKeyword <==> argType == Number
    ensures k == StringKeyword <==> argType != Number
  {
    match argType
    case String => StringKeyword
    case Number => NumberKeyword
    case _ => StringKeyword
  }

  /** `args.map(...)`: the parameters in argument order. */
  function CreateParameters(args: seq<Arg>): (ps: seq<Parameter>)
    ensures |ps| == |args|
    ensures forall i :: 0 <= i < |args| ==> ps[i].name == args[i].name
  {
    seq(|args|, i requires 0 <= i < |args| => Parameter(args[i].name, MapType(args[i].argType)))
  }

  /** A parameter is typed `number` exactly when its argument is a
      `Number`, and `string` otherwise. */
  lemma ParameterTypes(args: seq<Arg>)
    ensures forall i :: 0 <= i < |args| ==>
      (CreateParameters(args)[i].typeKeyword == NumberKeyword <==> args[i].argType == Number)
    ensures forall i :: 0 <= i < |args| ==>
      (CreateParameters(args)[i].typeKeyword == StringKeyword <==> args[i].argType != Number)
  {
  }
}
