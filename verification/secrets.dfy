/** A desired secret as configured (`SecretValue` in main.go) and how its plaintext is obtained. */
module Secrets {
  import opened Wrappers

  /** `typ` says which of the other two fields is the source: "value" for a literal,
      "fromEnv" for the name of an environment variable read at run time. */
  datatype SecretValue = SecretValue(typ: string, value: string, fromEnv: string)

  /** The shapes of a YAML node as far as secret decoding is concerned: a null (`~`, `null` or
      nothing after the key), one that decodes as a string, one that decodes as a
      string-to-string mapping, and anything else. */
  datatype YamlNode = Null | Scalar(text: string) | Mapping(entries: map<string, string>) | OtherNode

  /** The zero `SecretValue`: every field "". */
  const Zero := SecretValue("", "", "")

  /** The environment, injected: Go's `os.Getenv` yields "" for an unset variable. */
  function Getenv(env: map<string, string>, name: string): string {
    if name in env then env[name] else ""
  }

  /** `UnmarshalYAML`: a string is a literal, a mapping must name `fromEnv`. The YAML library
      never calls it on a null node (see `DecodeEntry`). */
  function Unmarshal(node: YamlNode): (r: Result<SecretValue, string>)
    requires !node.Null?
    ensures r.Success? ==> r.value.typ == "value" || r.value.typ == "fromEnv"
    ensures node.Scalar? <==> r.Success? && r.value.typ == "value"
    ensures r.Success? && r.value.typ == "value" ==> r.value.value == node.text && r.value.fromEnv == ""
    ensures r.Success? && r.value.typ == "fromEnv" ==>
              node.Mapping? && "fromEnv" in node.entries && r.value == SecretValue("fromEnv", "", node.entries["fromEnv"])
    ensures node.Mapping? ==> (r.Success? <==> "fromEnv" in node.entries)
  {
    match node
    case Scalar(text) => Success(SecretValue("value", text, ""))
    case Mapping(entries) =>
      if "fromEnv" in entries then Success(SecretValue("fromEnv", "", entries["fromEnv"]))
      else Failure("No `fromEnv` found in map value for secret.")
    case OtherNode => Failure("Invalid type for secret value")
  }

  /** How one entry of a `secrets` mapping is decoded: a null value is left as the zero
      `SecretValue` without calling `UnmarshalYAML`; any other node goes through it. */
  function DecodeEntry(node: YamlNode): (r: Result<SecretValue, string>)
    ensures node.Null? ==> r == Success(Zero)
    ensures !node.Null? ==> r == Unmarshal(node)
    ensures r.Success? && r.value.typ == "" <==> node.Null?
  {
    if node.Null? then Success(Zero) else Unmarshal(node)
  }

  /** The plaintext of a secret: the literal, or the environment lookup (never an error, ""
      when unset); a value of any other type is an error. */
  function GetRealizedValue(sv: SecretValue, env: map<string, string>): (r: Result<string, string>)
    ensures sv.typ == "value" ==> r == Success(sv.value)
    ensures sv.typ == "fromEnv" && sv.fromEnv in env ==> r == Success(env[sv.fromEnv])
    ensures sv.typ == "fromEnv" && sv.fromEnv !in env ==> r == Success("")
    ensures r.Failure? <==> sv.typ != "value" && sv.typ != "fromEnv"
  {
    if sv.typ == "value" then Success(sv.value)
    else if sv.typ == "fromEnv" then Success(Getenv(env, sv.fromEnv))
    else Failure("Invalue type in SecretValue " + sv.typ)
  }

  /** Every secret `UnmarshalYAML` accepts can be realised, whatever the environment holds. */
  lemma DecodedSecretsRealize(node: YamlNode, env: map<string, string>)
    requires !node.Null? && Unmarshal(node).Success?
    ensures GetRealizedValue(Unmarshal(node).value, env).Success?
    ensures node.Scalar? ==> GetRealizedValue(Unmarshal(node).value, env) == Success(node.text)
  {
  }

  /** A secret configured with a null value is decoded without error, but its plaintext can
      never be obtained: `GetRealizedValue` rejects the empty type. */
  lemma NullEntryNeverRealizes(env: map<string, string>)
    ensures DecodeEntry(Null).Success?
    ensures GetRealizedValue(DecodeEntry(Null).value, env).Failure?
  {
  }
}
