/** The configuration types, and the artifacts a store or a registry holds under a reference. */
module Api {
  import opened Strs
  import opened Files
  import opened Archives
  import opened Charts

  datatype ChartSpec = ChartSpec(path: string, name: string, repoUrl: string, version: string)

  datatype Package = Package(name: string, manifestPath: string, chart: ChartSpec, images: seq<string>)

  datatype Kevi = Kevi(name: string, packages: seq<Package>)

  datatype PackageType = ManifestType | ChartType | UnknownType

  function Identify(p: Package): PackageType {
    if p.manifestPath != "" then ManifestType
    else if p.chart.path != "" || p.chart.repoUrl != "" then ChartType
    else UnknownType
  }

  /** The layer media types kevi writes, and all others. */
  datatype MediaType = ConfigLayer | ManifestLayer | ChartLayer | OtherLayer(name: string)

  /** What a layer's bytes are: an archive of manifests, a chart, an encoded configuration, bytes
      that kevi did not make, or bytes that are listed but not there to be fetched. */
  datatype Payload =
    | ManifestArchive(items: seq<Item>)
    | ChartContent(chart: ChartData)
    | ConfigDoc(config: Kevi)
    | Blob(data: Bytes)
    | Missing

  datatype Layer = Layer(mediaType: MediaType, payload: Payload)

  datatype Artifact = Artifact(layers: seq<Layer>)

  type Store = map<string, Artifact>

  /** The artifact made of one piece of data in memory. */
  function InMemory(payload: Payload, mediaType: MediaType): Artifact {
    Artifact([Layer(mediaType, payload)])
  }

  /** The media type a package of each type is written with. */
  function MediaOf(t: PackageType): Option<MediaType> {
    match t
    case ManifestType => Some(ManifestLayer)
    case ChartType => Some(ChartLayer)
    case UnknownType => None
  }
}
