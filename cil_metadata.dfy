/**
 * The CIL metadata records the browser reads. In the program these are types of an
 * external metadata reader; here they are plain data: names, flags and ordered
 * sequences, exactly as much as the node tree looks at.
 */
module CilMetadata {
  import opened Wrappers

  /** A referenced assembly: its name and its version as the reader formats it. */
  datatype AssemblyReference = AssemblyReference(name: string, formattedVersion: string)

  datatype FieldDefinition = FieldDefinition(name: string)

  /** A method; its decoded signature is an opaque string produced by the reader. */
  datatype MethodDefinition = MethodDefinition(name: string, decodedSignature: string)

  /** A property with its optional accessor methods (HasGetter is `getter.Some?`). */
  datatype PropertyDefinition =
    PropertyDefinition(name: string, getter: Option<MethodDefinition>, setter: Option<MethodDefinition>)
  {
    predicate HasGetter() { getter.Some? }
    predicate HasSetter() { setter.Some? }
  }

  /** A type definition; its namespace may be null (None) or empty for the global namespace. */
  datatype TypeDefinition = TypeDefinition(
    name: string,
    namespaceName: Option<string>,
    fields: seq<FieldDefinition>,
    properties: seq<PropertyDefinition>,
    methods: seq<MethodDefinition>)

  /** A loaded assembly: name, version text, references and type definitions in metadata order. */
  datatype Assembly = Assembly(
    name: string,
    version: string,
    references: seq<AssemblyReference>,
    types: seq<TypeDefinition>)

  /** Anything the external CIL-to-text visitor can be asked to print. */
  datatype CilElement =
    | AssemblyElement(assembly: Assembly)
    | ReferenceElement(reference: AssemblyReference)
    | TypeElement(typeDef: TypeDefinition)
    | FieldElement(field: FieldDefinition)
    | MethodElement(methodDef: MethodDefinition)
    | PropertyElement(property: PropertyDefinition)

  /**
   * What one call of the external visitor produces: the printed text (never null,
   * it comes from a string builder) or an exception, given by its ToString text.
   */
  datatype CilText = Printed(text: string) | Thrown(exceptionText: string)
}
