/** The spec of the Kubeflow `Notebook` custom resource the gateway creates
    for a user, its default, and its JSON form. */
module KubeModels {
  import opened Wrappers

  datatype ContainerSpec = ContainerSpec(name: string, image: string)
  datatype PodSpec = PodSpec(containers: seq<ContainerSpec>)
  datatype NotebookTemplateSpec = NotebookTemplateSpec(spec: PodSpec)
  datatype NotebookSpec = NotebookSpec(template: NotebookTemplateSpec)

  const NOTEBOOK_CONTAINER: string := "notebook"
  const NOTEBOOK_IMAGE: string := "jupyter/minimal-notebook"

  /** `NotebookSpec::default`: one container, the minimal Jupyter image. */
  function Default(): (n: NotebookSpec)
    ensures |n.template.spec.containers| == 1
    ensures n.template.spec.containers[0] == ContainerSpec(NOTEBOOK_CONTAINER, NOTEBOOK_IMAGE)
  {
    NotebookSpec(NotebookTemplateSpec(PodSpec([ContainerSpec(NOTEBOOK_CONTAINER, NOTEBOOK_IMAGE)])))
  }

  /** A JSON value as far as the spec uses one; an object's keys are
      unique. */
  datatype Json = JString(s: string) | JArray(items: seq<Json>) | JObject(fields: map<string, Json>)

  /** The derived `Serialize` of a container: an object with exactly its two
      fields, which the derived `Deserialize` reads back. */
  function ContainerToJson(c: ContainerSpec): (j: Json)
    ensures j.JObject? && j.fields.Keys == {"name", "image"}
    ensures ContainerFromJson(j) == Some(c)
  {
    JObject(map["name" := JString(c.name), "image" := JString(c.image)])
  }

  /** The derived `Serialize`: every struct an object keyed by its field
      names, the container list an array in order. */
  function ToJson(n: NotebookSpec): (j: Json)
    ensures j.JObject? && j.fields.Keys == {"template"}
    ensures var t := j.fields["template"]; t.JObject? && t.fields.Keys == {"spec"}
  {
    var cs := n.template.spec.containers;
    JObject(map["template" := JObject(map["spec" := JObject(map["containers" :=
      JArray(seq(|cs|, i requires 0 <= i < |cs| => ContainerToJson(cs[i])))])])])
  }

  /** The field of an object, when the value is an object holding it. */
  function Field(j: Json, key: string): (r: Option<Json>)
    ensures r.Some? <==> j.JObject? && key in j.fields
  {
    if j.JObject? && key in j.fields then Some(j.fields[key]) else None
  }

  /** A present JSON string's text. */
  function StringOf(j: Option<Json>): (r: Option<string>)
    ensures r.Some? <==> j.Some? && j.value.JString?
    ensures r.Some? ==> j.value == JString(r.value)
  {
    if j.Some? && j.value.JString? then Some(j.value.s) else None
  }

  /** The derived `Deserialize` of a container: both fields must be strings;
      other fields are ignored. */
  function ContainerFromJson(j: Json): (r: Option<ContainerSpec>)
    ensures r.Some? <==> StringOf(Field(j, "name")).Some? && StringOf(Field(j, "image")).Some?
    ensures r.Some? ==> Field(j, "name") == Some(JString(r.value.name)) && Field(j, "image") == Some(JString(r.value.image))
  {
    match (StringOf(Field(j, "name")), StringOf(Field(j, "image")))
    case (Some(name), Some(image)) => Some(ContainerSpec(name, image))
    case _ => None
  }

  function ContainersFromJson(items: seq<Json>): (r: Option<seq<ContainerSpec>>)
    ensures r.Some? ==> |r.value| == |items|
    ensures r.Some? ==> forall i :: 0 <= i < |items| ==> ContainerFromJson(items[i]) == Some(r.value[i])
    decreases |items|
  {
    if |items| == 0 then Some([])
    else
      match (ContainersFromJson(items[..|items| - 1]), ContainerFromJson(items[|items| - 1]))
      case (Some(cs), Some(c)) => Some(cs + [c])
      case _ => None
  }

  /** The derived `Deserialize` on JSON objects: fields are looked up by
      name, a missing or mistyped field is an error, and fields it does not
      know are ignored. The array form serde's struct visitor also accepts
      is not modelled. */
  function FromJson(j: Json): (r: Option<NotebookSpec>)
    ensures Field(j, "template").None? ==> r.None?
    ensures r.Some? ==>
              var t := Field(j, "template").value;
              Field(t, "spec").Some? && Field(Field(t, "spec").value, "containers").Some?
              && var cs := Field(Field(t, "spec").value, "containers").value;
                 cs.JArray? && ContainersFromJson(cs.items) == Some(r.value.template.spec.containers)
  {
    match Field(j, "template")
    case None => None
    case Some(t) =>
      match Field(t, "spec")
      case None => None
      case Some(p) =>
        match Field(p, "containers")
        case Some(JArray(items)) =>
          (match ContainersFromJson(items)
           case Some(cs) => Some(NotebookSpec(NotebookTemplateSpec(PodSpec(cs))))
           case None => None)
        case _ => None
  }

  lemma {:induction false} ContainersRoundTrip(cs: seq<ContainerSpec>)
    ensures ContainersFromJson(seq(|cs|, i requires 0 <= i < |cs| => ContainerToJson(cs[i]))) == Some(cs)
    decreases |cs|
  {
    var items := seq(|cs|, i requires 0 <= i < |cs| => ContainerToJson(cs[i]));
    if |cs| > 0 {
      var init := cs[..|cs| - 1];
      assert items[..|items| - 1] == seq(|init|, i requires 0 <= i < |init| => ContainerToJson(init[i]));
      ContainersRoundTrip(init);
      assert init + [cs[|cs| - 1]] == cs;
    }
  }

  /** Reading back what is written gives the same spec. */
  lemma RoundTrip(n: NotebookSpec)
    ensures FromJson(ToJson(n)) == Some(n)
  {
    ContainersRoundTrip(n.template.spec.containers);
  }

  /** The default spec is written as
      `{"template": {"spec": {"containers": [{"name": "notebook", "image": "jupyter/minimal-notebook"}]}}}`. */
  lemma DefaultJson()
    ensures ToJson(Default()) == JObject(map["template" := JObject(map["spec" := JObject(map["containers" :=
              JArray([JObject(map["name" := JString(NOTEBOOK_CONTAINER), "image" := JString(NOTEBOOK_IMAGE)])])])])])
  {
    var cs := Default().template.spec.containers;
    assert seq(|cs|, i requires 0 <= i < |cs| => ContainerToJson(cs[i])) == [ContainerToJson(cs[0])];
  }
}
