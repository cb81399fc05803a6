# kevi's air-gap pipeline, modelled and proved

kevi carries packages (kustomize manifests and Helm charts) and the images they name from a
connected machine into a cluster that has only its own registry. `Pack` collects packages and
images into a store; `CopyAll` moves every reference of the store to the target registry under a
rewritten address; `deploy` then applies the stored configurations; in the cluster a mutating
webhook points each pod's images at the registry, and a controller reads the packages back, builds
them and syncs the objects.

Five places compute addresses without consulting one another, and the pipeline works only when they
agree. The order of the effects decides what a cluster may see. Those two things are what this
project is about. The theorems to read first are

* `EndToEnd.PackAndDeploy`: for a good configuration with unique package names, in a good world and
  for a good host, when packing it and deploying the store both succeed, every configuration of the
  store has been applied; and of the configuration just packed each package that is alone at its target
  builds in the cluster what it built on disk, byte for byte, and each image that is alone at its target
  and handled by the webhook is held by the registry as that image. (For a chart directory, exactly when
  helm's ignore rules skip none of its files: `EndToEnd.LoadedPackagesMeanTheSame`.)
* `EndToEnd.RewrittenImagesAreHeld` and `EndToEnd.ReconciledClusterIsThePackedOne`: the parts of this
  with the least asked for. An image of any configuration is held if only that configuration's own keys
  are not the image's key; and what a reconcile leaves in the cluster is decided by the packages on disk.
* `Histories.AppliedConfigsAreReadable` and `Histories.AppliedConfigsLoad`: in every run of packings of
  good configurations in good worlds, installations and deployments to a good host, failing anywhere,
  in which each package is alone at its target whenever a copy starts, once a configuration is applied
  and ever after, all its packages are in the registry, at the address and with the one layer the reader
  asks for, and those of manifests load;
* `Stores.StoresStayComplete` and `Stores.ReferencesStay`: over every sequence of packings with good
  package names, whatever is packed, every configuration stored under a good name has its packages in
  the store; and over every sequence of packings whatever, no reference leaves it;
* `Deploying.DeployingAppliesEveryConfig`: exactly when the walk that applies configurations is not
  stopped, and that it then applies every configuration in the store, each once, and nothing else;
* `Reconciling.ReconcileLeavesExactly` and `Reconciling.ReconcilesConverge`: exactly what a reconcile
  leaves, and that after any number of failed ones a successful one leaves what a single clean run
  would have left.

`dafny verify dfyconfig.toml` checks everything. No part of kevi is executed.

## How it is laid out

| file | what it holds |
|---|---|
| `Strs`, `Paths` | the Go string and path functions the code leans on |
| `Names`, `Grammar` | image references: parsing under a default registry, printing, parsing again; and an independent grammar that the parser is proved to meet |
| `Relocation`, `Addresses` | the five address computations and how they agree; writer and reader of a package, for any name |
| `Webhook` | the rewriting of a pod's images, in place |
| `Discovery` | JSONPath evaluation, printing with spaces, splitting at spaces |
| `Files`, `Archives`, `Manifests`, `Charts` | directory trees, archives, and the two kinds of package |
| `Api`, `Copying`, `Packing`, `Stores` | configurations, the store, the copy, what every packing keeps |
| `Installing`, `Deploying` | the operator's image and objects, and the `deploy` sequence |
| `Runs`, `Histories` | the state machine of packings, installations and deployments |
| `Loading`, `Reconciling` | reading a package back, and the controller |
| `EndToEnd` | the theorems that span all of it |
| `Witnesses` | concrete inputs on which the code does not do what one would expect |

Code that changes things step by step is a method or a class here (`Handle`, `find`, `utgz`,
`generateFS`, `Pack`, `CopyAll`, `runInstall`, `deploy`, `Load`, `Reconcile`), each proved against a function of
its inputs or of the old state, and the theorems are about those functions. Code that only computes
(`Relocate`, `relocate`, `Locate`, `Reference`, `Identify`) is a function.

## Words used below

* A host is *self-delimiting* when it is valid and contains '.' or ':', and *good* when it is besides not ".".
* A reference is *dotless* when its printed path has one segment, or a first segment without '.'.
* A package name is *clean* when it is non-empty and has no empty, "." or ".." segment. A *good*
  package name is clean and does not begin with `kevi-`, as the operator's image and the stored
  configurations do. A configuration's name is good when `kevi-` followed by it is clean.
* A package name is *contained* when what it joins to under the namespace neither climbs above the
  namespace's parent nor is that parent. A key is *undelimited* when its first '/' comes before any
  '.', ':' and '@', so that a parse finds no registry in it.
* A reference is *detected* when deploying takes it for a configuration's: it contains `/kevi-`.
* A chart file is *skipped* when helm's ignore rules leave it out of a directory that is read.
* *Kinds* is the type every package name has. It says that a name is not used for a manifest in one
  configuration and for a chart in another; names that are unique always have one.
* A *good configuration* has a good name, good package names and packages of their kinds. A *good
  world* pulls no image that decodes as a configuration under a detected reference.
* A reference is *alone* at its target when no other reference of the store relocates to it. Two
  references *collide* when they relocate to one target.
* A step that talks to something outside may fail at any time. Classes count such failures
  (`refusals`, `failures`), so that a contract can say that nothing else makes an operation fail.

## What is assumed

* **References** (go.mod:9; the go-containerregistry code is not part of this model). A tag is tried first, then
  a digest. The tag is the text after the last ':' when that has no '/', and a missing or empty one
  means `latest`. The first segment is a registry only when a '/' follows it and it contains '.' or
  ':'. `docker.io` becomes `index.docker.io`, where a one-segment repository prints under `library/`.
  Repositories have 2 to 255 characters of a-z, 0-9, '_', '-', '.', '/'; tags 1 to 128 of letters,
  digits, '_', '-', '.'; digests 71 of "sh:" and lower-case hexadecimal digits. The characters of a
  registry are those section 3.2 of RFC 3986 leaves as they are.
* **The in-memory file system of kustomize** holds files and directories by path, accepts the names
  that a parameter `legal` accepts, refuses a file where a directory stands and the reverse, prints
  its paths from "/" and walks in lexical order, directories first. A call that fails may have made
  some of the directories on the way.
* **Codecs and kustomize**: the kustomize build is any function of the files, and parsing and writing
  YAML are any functions of the bytes. An archive is its sequence of entries.
* **Helm** (its code is not part of this model) renders a chart by any function of the chart's files,
  the same for a chart on disk and in an archive, and any files may or may not make a chart. It reads a
  directory without what its ignore rules skip, and fails when anything else there cannot be read. It
  reads an archive without ignore rules, dropping the first component of every name.
* **The store and the registry** are maps from reference to artifact. Adding and pushing replace one
  reference or, failing, none. A store is walked in any order, each reference once.
* **Images** that are pulled under a reference containing `/kevi-` have no layer that decodes as a
  configuration (`Stores.GoodWorld`). Nothing in the code ensures it, and such an image stops every
  deployment all the same (see below).
* **The sync engine** applies its objects in order and prunes only managed objects it was not given;
  a failing sync has done any part of that. An object is managed when its mark is `donk`.

## What the code does not do

Each of these is a theorem with the exact condition. For those that concern addresses and detection,
`Witnesses` has concrete inputs.

* The host "." is valid and contains a '.', but `path.Join` drops it, so the reader looks at a
  different address from the one written (`DotLosesPackages`). For every contained name and every
  self-delimiting host, writer and reader agree exactly when the key of the package has several
  segments, is undelimited and the host is not "."; or has one segment and the target is Docker Hub
  (`ReaderFindsWhatWriterWrote`). So on a good host other than Docker Hub, the only names kept in the
  namespace that are lost are the empty name and those that clean to it (`InsideNamesAreFound`, `EmptyNamesAreLost`, `TheEmptyNameIsLost`).
* The webhook asks for the very reference the copy wrote for every dotted image, and for a dotless one
  if and only if the target is self-delimiting and the image is not one that Docker Hub as a target
  makes too long (`RewriteAgreesExactly`). So with a target such as `registry` it never does for a
  dotless image (`RegistryDelimitsNothing`); and with Docker Hub it refuses the one-segment images of
  248 to 255 characters that the copy accepts, because its second parse meets `library/` in front
  (`LongImagesOverflow`, `OverflowHappens`).
* A path with a dot in its first segment loses that segment, which becomes the registry
  (`LandsExactlyWhenDotless`), or is refused (`RelocatesExactly`): `a.b/c.d/xy` goes to `c.d/xy:latest`,
  whatever the target (`ADottedImageMovesAway`).
* A package is stored over an image exactly when its name climbs out of the namespace to a text that
  prints as itself, or to an overlong name of Docker Hub (`NamesReachingImageKeys`); every clean image
  key is reached so, by "../" and the key (`UncleanNamesReachImageKeys`).
* Deploying sees a configuration exactly when cleaning leaves its reference a segment, not the first,
  that begins with `kevi-` (`ConfigsDetectedExactly`). A name with "/../" can clean to one it does not
  see (`UncleanConfigsCanBeMissed`, `UncleanConfigIsMissed`).
* A store can be deployed exactly when its configurations are all that is detected in it
  (`DeployingAppliesEveryConfig`). One image under a reference with `/kevi-`, or one package such as
  `app/kevi-x`, stops every deployment before its configurations are all applied
  (`StrayReferencesStopDeploying`, `MarkedPackagesStopDeploying`, `MarkedPackageIsDetected`).
* The `.tar.gz` suffix of a chart is never recognised (`OnlyTgzFilesAreStored`).
* The archive of a chart directory holds what helm's ignore rules skip on disk, so in the cluster helm
  reads the same files exactly when they skip none (`ChartsAreReadBack`).
* A directory of a chart that cannot be listed, the chart's own included, is left out of the archive
  without an error. Packing gets that far exactly when helm skips that directory, since otherwise
  reading the chart has failed before (`HiddenFilesAreDropped`).
* A reconcile deletes what is marked `donk`, in the cluster or in its own packages, unless its last
  package lists it (`ReconcileDeletesExactly`); so with marked objects the packages of one
  configuration prune one another (`MarkedPackagesPruneEachOther`).
* README.md:45-47 of kevi describes a list of extra images on a package. `pack` never reads it
  (pkg/pack/pack.go:83-106), and here it is a field of `Api.Package` that nothing uses.

## Model

| member | source | states |
|---|---|---|
| `Names.ParseIsCanonical` | pkg/pack/pack.go:120-123 | Every reference that parses has a self-delimiting registry that is not the alias, a legal path and identifier, and, when a digest, a path already spelled out |
| `Names.ParsePrinted` | pkg/pack/manifest.go:67-77 | A printed name parses exactly when its printed path meets the length bound, to the same reference with the path spelled out |
| `Names.NormalForm` | pkg/pack/pack.go:119-135 | For every string that parses, printing and parsing again keeps printed name, registry, path, kind and identifier, exactly when the bound is met |
| `Grammar.ParsesExactly` | pkg/pack/pack.go:120-123 | A text parses to a reference if and only if a grammar, written in literal characters, lengths and names, reads it as that reference |
| `Relocation.RelocateParsed` | pkg/pack/pack.go:119-135 | Relocation amounts to one parse of the printed path under the target, with kind and identifier kept, for every reference and target |
| `Grammar.RelocatesTo` | pkg/pack/pack.go:119-135 | A text relocates to another if and only if the grammar reads the text as a reference and its printed path, under the target, as a repository, and the other is that repository printed with the old tag or digest |
| `Grammar.StoredUnder` | pkg/pack/manifest.go:66-77 | An image is stored under a key if and only if the key is the printed form of what the grammar reads the image as |
| `Relocation.RelocatesExactly` | pkg/pack/pack.go:125-128 | A reference that parses relocates if and only if its printed path fits (dotless) or at least two characters follow its first segment (dotted) |
| `Relocation.KeyRelocatesAlike` | pkg/pack/manifest.go:65-78 | An image and the key it is stored under relocate to the same target, or both not at all |
| `Relocation.LandsExactlyWhenDotless` | pkg/pack/pack.go:125-133 | Kind and identifier are always kept; the result has the target registry and the whole path if and only if the reference is dotless |
| `Relocation.CollideExactlyWhenPathsAgree` | pkg/pack/pack.go:119-135 | Two dotless references relocate to one string if and only if paths, kinds and identifiers are equal |
| `Relocation.RewriteIsRelocate` | pkg/webhook/mutate.go:83-95 | The webhook asks for what the copy wrote if and only if the image is not a long one-segment one going to Docker Hub, which it refuses |
| `Grammar.RewritesTo` | pkg/webhook/mutate.go:83-95 | The webhook asks for a text if and only if it is the printed form of what the grammar reads the relocated image as |
| `Relocation.LongImagesOverflow` | pkg/webhook/mutate.go:89-92 | Every one-segment image of another registry with at least 248 characters is copied to Docker Hub and refused by the webhook |
| `Relocation.OverflowHappens` | pkg/webhook/mutate.go:89-92 | There is such an image |
| `Relocation.RewriteAgreesExactly` | pkg/webhook/mutate.go:83-95 | For every target, webhook and copy agree if and only if the image is dotted, or the target is self-delimiting and the image is not a long one-segment one going to Docker Hub |
| `Relocation.RewriteTwice` | pkg/webhook/mutate.go:83-95 | A second rewriting changes nothing if and only if the path is stable, and for every dotless image it gives the same reference |
| `Addresses.ReaderFindsWhatWriterWrote` | pkg/fetcher/registry.go:72-79 | For every contained package name and self-delimiting host, the copy's address of a package is the reader's if and only if its key is undelimited and the host is not ".", or, for a key of one segment, the target is Docker Hub |
| `Addresses.InsideNamesAreFound` | pkg/fetcher/registry.go:72-79 | For every name that cleaning leaves something of inside the namespace, tags and several segments included, the two agree if and only if the host is not "." |
| `Addresses.EmptyNamesAreLost` | pkg/fetcher/registry.go:72-79 | For a name of which nothing is left, the empty one included, the two agree if and only if the target is Docker Hub |
| `Grammar.LocatesAt` | pkg/fetcher/registry.go:72-79 | The reader of a package with a clean name looks at what host, `/kevi/` and name are read as, printed, or at that text itself when it is not read |
| `Grammar.KeyIsSpelled` | pkg/pack/manifest.go:53-55 | The key of a package with a clean name is `kevi/` and the name |
| `Stores.ConfigKeyIsSpelled` | pkg/pack/pack.go:73-73 | The key of a configuration with a good name is `kevi/kevi-` and the name |
| `Relocation.ImageKeysAreNotPackageKeys` | pkg/pack/manifest.go:77-86 | The key of an image is never the key of a package stored under the namespace, as every one with a clean name is |
| `Relocation.ImageKeysAreDelimited` | pkg/pack/manifest.go:66-77 | Nor of any package whose key is undelimited: an image's key begins with its registry |
| `Relocation.ImageKeysExactly` | pkg/pack/manifest.go:66-77 | A text is the key of some image if and only if it prints as itself or is an overlong name of Docker Hub |
| `Relocation.NamesReachingImageKeys` | pkg/pack/manifest.go:53-55 | A package name is stored under the key of an image if and only if it climbs out of the namespace to such a text |
| `Relocation.InstallingSparesPackages` | cli/deploy.go:191-198 | The operator's image is never written where a package with a good name is read |
| `Relocation.ControllerHasAPlace` | cli/deploy.go:191-196 | The operator's image always has a reference, under the target |
| `Grammar.ControllerIsSpelled` | cli/deploy.go:191-196 | The operator's image goes to the registry, `/kevi/kevi-controller@` and its digest |
| `Webhook.PodObject.constructor` | pkg/webhook/mutate.go:41-45 | The decoded pod holds both container lists, in arrays of its own, and the other fields |
| `Webhook.RewriteImages` | pkg/webhook/mutate.go:47-53 | The loop overwrites the image of each container in place when it is rewritten and leaves it when it is refused |
| `Webhook.RewriteAllOnlyRewritesImages` | pkg/webhook/mutate.go:47-61 | Length, order, names and all other fields of a container list are kept |
| `Webhook.Handle` | pkg/webhook/mutate.go:37-75 | Status 400 for an undecodable pod, 500 for an unencodable one, and otherwise a patch to the pod with nothing but images changed, in both lists |
| `Webhook.HandlingTwice` | pkg/webhook/mutate.go:47-61 | Handling twice equals handling once if and only if each image is refused or stable |
| `Webhook.DotlessPodsSettle` | pkg/webhook/mutate.go:47-61 | In particular for pods whose images are each dotless or refused |
| `Discovery.ParseJsonPath` | pkg/pack/utils.go:61-74 | The words of the printed results, or an error when the template does not parse or evaluate |
| `Discovery.Find` | pkg/pack/utils.go:26-59 | The matches of all documents and templates in order; what fails contributes nothing |
| `Discovery.WordsOfPrinted` | pkg/pack/utils.go:67-73 | Splitting what was printed gives each text's own words in order, whatever the texts |
| `Discovery.WordsAreTheRuns` | pkg/pack/utils.go:71-73 | Splitting undoes every weaving of space-free words with blanks between them: the result is the maximal runs |
| `Discovery.EveryTextHasRuns` | pkg/pack/utils.go:71-73 | Every text is such a weaving |
| `Discovery.KnownTemplateReadsImages` | pkg/pack/utils.go:16-24 | A known template evaluates to nothing when the list its path leads to is missing or null, to an error when it is something else than a list, and otherwise to the `image` of exactly the items that have one, in order |
| `Discovery.EvalDistributes` | pkg/pack/utils.go:61-69 | A template evaluates to its results on each value in turn, and to an error when it does so on one |
| `Discovery.DiscoveryIsExact` | pkg/pack/utils.go:26-59 | What is found is the words of the images standing at exactly the places of the four known lists, in document order, then path order, then item order, with repeats |
| `Discovery.EachIsFoundInTurn` | pkg/pack/utils.go:26-59 | Each of those images has its own part of what is found, in turn and as often as it occurs: itself when it is a space-free string, and the words of its text otherwise |
| `Discovery.FoundAreContainers` | pkg/pack/utils.go:16-24 | The images at those places are exactly those of the containers and init containers of pods and of the pod templates of workloads |
| `Discovery.SpaceFreeImagesAreFound` | pkg/pack/utils.go:26-59 | When the images of all containers are space-free strings, exactly the non-empty ones are found, in that order |
| `Discovery.ImageIsFound` | pkg/pack/utils.go:26-59 | Each space-free image of a container is found, whatever else the documents hold |
| `Files.WalkIsSorted` | pkg/pack/manifest.go:211-211 | A walk visits every path once, in order |
| `Files.PathsInOrder` | pkg/pack/manifest.go:211-211 | The order is that of the names at the first difference, a directory before what it has |
| `Files.TextsInOrder` | pkg/pack/manifest.go:211-211 | The order of names is that of the characters at the first difference, a name before what extends it |
| `Files.MkdirExactly` | pkg/pack/manifest.go:174-176 | The assumed rule: a directory can be made exactly when its names are legal and no file stands at it or above, and then it and all above it are directories and the rest is as it was |
| `Files.WriteExactly` | pkg/pack/manifest.go:190-192 | The same of a file |
| `Files.FileSystem.MkdirAll` | pkg/pack/manifest.go:174-176 | The directory and those above it are made, or the call fails having made some of those above |
| `Files.FileSystem.WriteFile` | pkg/pack/manifest.go:190-192 | The file and the directories above it are made, or the call fails having made some directories |
| `Archives.Utgz` | pkg/pack/utils.go:76-119 | Reads entries to the end of the archive: directories and regular files are made, other entries and missing headers skipped, and any error ends it |
| `Archives.UnpackedExactly` | pkg/pack/utils.go:76-119 | An archive unpacks if and only if each entry has a header or none, legal names and nothing in its way; the tree has just the files of the regular entries, later over earlier, the directories of the directory entries and all above either |
| `Archives.UnpackingWhatWasPacked` | pkg/pack/manifest.go:106-155 | For every tree, unpacking what was packed never fails and gives exactly the files, and exactly the directories above files |
| `Manifests.GenerateFS` | pkg/pack/manifest.go:158-200 | Succeeds if and only if the root is a directory that is readable throughout and has legal names, and then holds exactly its tree |
| `Manifests.CollectResources` | pkg/pack/manifest.go:210-238 | The resources collected over the walk, or an error |
| `Manifests.CollectedOverWalk` | pkg/pack/manifest.go:210-238 | They are the listed resources, unless a YAML file does not parse |
| `Manifests.GenerateRootKustomizationIfDNE` | pkg/pack/manifest.go:202-258 | The new file system is the old one with the generated root, or the old one unchanged |
| `Manifests.ResourcesAreTheYamlFiles` | pkg/pack/manifest.go:211-234 | The generated root lists every file of the tree whose name ends in `.yaml` or `.yml` exactly once, in walk order, as its path from `/` |
| `Manifests.ListedIsYaml` | pkg/pack/manifest.go:211-234 | So a path is listed if and only if it is that of such a file |
| `Manifests.RootingIsConservative` | pkg/pack/manifest.go:202-258 | Nothing is written when `kustomization.yaml`, `kustomization.yml` or `Kustomization` stands; otherwise the first of these is added, listing the resources, nothing else changes, and a second run adds nothing |
| `Manifests.RootingFailsExactly` | pkg/pack/manifest.go:202-258 | It fails if and only if none of the three stands and a YAML file does not parse or the root file cannot be created |
| `Manifests.Manifest.Generate` | pkg/pack/manifest.go:90-104 | Gives the build of exactly the files that stand after root generation, those before and the root where none stood, and leaves them in the file system; nothing when no root can be made |
| `Manifests.DirectoryBuildsItsFiles` | pkg/pack/manifest.go:90-104 | A directory that packs builds to what its own files build to, with a root listing its YAML files where none stands |
| `Manifests.Manifest.Tgz` | pkg/pack/manifest.go:106-155 | The regular files in walk order, named from the root; the file system is unchanged although the walk makes its directories again |
| `Manifests.TransportPreservesMeaning` | pkg/pack/manifest.go:106-155 | For every directory that packs, reading, generating, archiving and unpacking keeps its files, with the root, and contents; generating from the result writes nothing and builds those files, as at first |
| `Charts.Tgz` | pkg/pack/chart.go:160-225 | The stored file, the built archive or an error, by path, suffix and kind of file; a root that cannot be listed gives an archive of directory entries |
| `Charts.DiskChartExactly` | pkg/pack/chart.go:58-80 | Helm reads from disk, if they make a chart, the files of an archive, or exactly the files of a directory that no ignore rule skips, itself or a directory it is in, and fails if anything else is locked |
| `Charts.ChartDirectoryIsWalked` | pkg/pack/chart.go:180-224 | The archive of a directory that can be read has one entry for each path, in walk order, named from its base name, a directory or a file with its data |
| `Charts.ChartDirectoryIsRecovered` | pkg/pack/chart.go:180-224 | Archiving succeeds if and only if every file can be read; every entry begins with the directory's base name, and dropping it recovers exactly the files |
| `Charts.HiddenFilesAreDropped` | pkg/pack/chart.go:183-215 | A directory that cannot be listed, the root included, does not fail the archive, which lacks exactly the files below it; helm reads such a chart first if and only if it skips the directory |
| `Charts.ChartsAreReadBack` | pkg/pack/chart.go:160-225 | From the archive of a chart helm reads the files it read on disk if and only if it skips none of them; a stored archive always gives the same |
| `Charts.OnlyTgzFilesAreStored` | pkg/pack/chart.go:164-178 | A chart file is stored if and only if its name ends in `.tgz`; `.tar.gz` is refused |
| `Copying.Registry.Push` | pkg/pack/pack.go:47-50 | A push replaces one reference or, failing, none |
| `Copying.WalkOf` | pkg/pack/pack.go:41-41 | A walk has every reference of the store once |
| `Copying.LastWalkedWins` | pkg/pack/pack.go:41-54 | For every walk order, each target holds the content of the last reference mapped to it, and all other keys are unchanged |
| `Copying.TargetsAreHeld` | pkg/pack/pack.go:41-54 | Every reference copied leaves something at its target, whatever collides |
| `Copying.AloneIsKept` | pkg/pack/pack.go:41-54 | A reference that is alone at its target is in the registry with its own content, whatever else collides |
| `Copying.CopyIsLossless` | pkg/pack/pack.go:41-54 | Without collisions every reference of the store is in the registry with its own content |
| `Copying.OrderDoesNotMatter` | pkg/pack/pack.go:41-54 | Without collisions every walk order gives the same registry |
| `Packing.CollectImages` | pkg/pack/manifest.go:65-78 | The images found, by key, or an error when one does not parse or cannot be pulled |
| `Packing.PulledIsExact` | pkg/pack/manifest.go:65-78 | What is collected is the keys of exactly the images found, each with what was pulled under it |
| `Packing.PulledWhenAllCanBe` | pkg/pack/manifest.go:65-78 | Collecting fails exactly when an image does not parse or cannot be pulled |
| `Packing.ManifestContents` | pkg/pack/manifest.go:57-88 | A manifest brings its images and its archive as it is after generating, or fails as its parts do |
| `Packing.ChartContents` | pkg/pack/chart.go:94-128 | A chart that helm reads from disk brings the images of its rendering and its archive, or fails as its parts do |
| `Packing.ManifestsPackExactly` | pkg/pack/pack.go:83-106 | A package with a manifest path, whatever its chart fields, has contents if and only if its directory packs, a root stands or can be made, the files build and every image found in the build can be pulled; they are one manifest layer with an archive of just those files, and those images |
| `Packing.ChartsPackExactly` | api/v1alpha1/kevi_types.go:43-51 | A package without one, but with a chart path or a repository, has contents if and only if its chart is located, read, rendered and archived and every image can be pulled; they are one chart layer with that archive, and those images |
| `Packing.OthersDoNotPack` | api/v1alpha1/kevi_types.go:43-51 | A package with none of the three has no contents |
| `Packing.Oci.AddOCI` | pkg/pack/pack.go:74-77 | An addition puts one reference or, failing, none |
| `Packing.Oci.AddOCICollection` | pkg/pack/pack.go:105-105 | All of a collection is added, or, after a failed addition and only then, part of it |
| `Packing.Oci.PackOne` | pkg/pack/pack.go:83-106 | Fails if and only if the package has no contents or an addition fails; drops and changes nothing else |
| `Packing.Oci.Pack` | pkg/pack/pack.go:57-81 | Success adds all contents, later packages over earlier, and then the configuration; a failure leaves the first packages whole, part of the next, and no configuration, and happens for no other reason; either is the step that the theorems on stores are about |
| `Packing.PackLeavesExactly` | pkg/pack/pack.go:57-81 | After a success each reference holds the configuration as one layer of its type, or what the last package that brings it brings, or what it held |
| `Packing.Oci.CopyAll` | pkg/pack/pack.go:34-55 | Copies in walk order and stops exactly at the first reference that does not relocate or is not pushed; a failure leaves exactly a prefix copied |
| `Stores.DetectedIsContaining` | cli/deploy.go:101-103 | A reference splits into more than one part on `/kevi-` if and only if it contains it |
| `Stores.ConfigsAreDetected` | pkg/pack/pack.go:73-73 | Every reference written for a configuration with a good name is detected |
| `Stores.DetectedExactly` | cli/deploy.go:101-103 | A package reference is detected if and only if cleaning leaves a segment, not the first, that begins with `kevi-` |
| `Stores.ConfigsDetectedExactly` | pkg/pack/pack.go:73-73 | The same of the reference a configuration is written under, for every name |
| `Stores.CleanPackagesDetectedExactly` | pkg/pack/manifest.go:53-55 | A package with a clean name is taken for a configuration if and only if one of its segments begins with `kevi-` |
| `Stores.WhatIsBrought` | pkg/pack/manifest.go:57-88 | A package brings itself, as one layer of its type that unpacks when it is one of manifests, and images under image keys; nothing else |
| `Stores.ConfigWriteKeepsStoreOk` | pkg/pack/pack.go:67-77 | Writing a configuration after its packages keeps every configuration complete and touches no package, when all are good |
| `Stores.PackKeepsStoreOk` | pkg/pack/pack.go:57-81 | Every call for a good configuration, failing at any point, keeps the store as it should be and drops no reference |
| `Stores.StoresStayTyped` | pkg/pack/pack.go:57-81 | Over every sequence of calls for good configurations in good worlds, every configuration in the store has every package it lists there under its reference, as one layer of its type |
| `Stores.StoresStayComplete` | pkg/pack/pack.go:57-81 | Over every sequence of calls with good package names, whatever the configurations' names, the types and the images, what stands under a good configuration's reference is a configuration, with every package it lists in the store |
| `Stores.AnyStoresStayComplete` | pkg/pack/pack.go:57-81 | Over every sequence of calls with any names, every configuration in the store, under whatever reference, has every package it lists there, if no image pulled is a configuration itself |
| `Stores.ReferencesStay` | pkg/pack/pack.go:57-81 | Over every sequence of calls, of any configurations in any worlds, no reference leaves the store |
| `Stores.PackAll` | cli/pack.go:46-83 | Packs the documents in turn and stops exactly at the first that does not decode or is not packed |
| `Stores.PackAllIsASequence` | cli/pack.go:46-83 | Such a run, of good configurations, is a sequence of packings and keeps the store as it should be |
| `Deploying.FetchKevi` | cli/deploy.go:146-178 | The first layer that decodes, or an error, also when a layer before it cannot be fetched |
| `Deploying.FirstConfigExactly` | cli/deploy.go:163-177 | That is the configuration of a layer before which none decodes and all can be fetched |
| `Installing.Cluster.Apply` | cli/deploy.go:120-123 | Applies one configuration or, failing, none |
| `Installing.Cluster.ApplyObject` | cli/deploy.go:210-216 | Applies one object of the operator or, failing, none |
| `Installing.ApplyNamespaces` | cli/deploy.go:210-216 | Applies exactly the namespaces among the objects, in order, up to the first that fails |
| `Installing.NamespacesArePicked` | cli/deploy.go:210-216 | They are exactly the objects of kind `Namespace`, in order |
| `Installing.ApplyInOrder` | cli/deploy.go:209-222 | Namespaces first and then all objects, in order, up to the first that fails |
| `Installing.Install` | cli/deploy.go:180-223 | Writes the operator's image to its reference and applies its objects, namespaces first; it fails for no other reason than one of these |
| `Deploying.ApplyAll` | cli/deploy.go:99-129 | Applies the configurations of the walk in order and stops exactly at the first that is not read back or not applied |
| `Deploying.AppliesTheMarked` | cli/deploy.go:99-129 | Over any store a walk that is not stopped applies just what the references that contain `/kevi-` read back as, in order |
| `Deploying.Deploy` | cli/deploy.go:43-132 | Nothing is copied before the operator is installed, and no configuration applied before the whole store is copied; each part gets exactly as far as it can |
| `Deploying.FoundConfigIsPacked` | cli/deploy.go:100-108 | What is read back at a detected reference is the configuration that was packed under it, with its packages in the store |
| `Deploying.DeployableExactly` | cli/deploy.go:100-112 | Whatever the walk, nothing stops it if and only if every detected reference reads back as a configuration |
| `Deploying.StoreDeploysExactly` | cli/deploy.go:100-112 | A store left by packings can be deployed if and only if its configurations are all that is detected in it |
| `Deploying.StrayReferencesStopDeploying` | cli/deploy.go:100-108 | One detected reference that is not a configuration's stops every walk |
| `Deploying.MarkedPackagesStopDeploying` | cli/deploy.go:100-108 | So does a package of which a segment begins with `kevi-` |
| `Deploying.DeployingAppliesEveryConfig` | cli/deploy.go:99-129 | An undisturbed walk applies every configuration in the store as it was packed, each once, and nothing else |
| `Histories.NextKeepsInv` | cli/deploy.go:66-129 | Every step of packing, installing, copying and applying keeps the invariant |
| `Histories.InvHolds` | cli/deploy.go:66-129 | The invariant holds throughout every run |
| `Histories.RouteAgrees` | pkg/fetcher/registry.go:72-79 | For every good host, writer and reader of packages agree and the operator's image is written elsewhere |
| `Histories.AppliedConfigsAreReadable` | cli/deploy.go:91-129 | In every run of packings of good configurations in good worlds and deployments to a good host, failing anywhere, with each package alone at its target when a copy starts, a configuration once applied stays applied, and ever after each package it lists is in the registry at the reader's address with exactly one layer of the type it asks for |
| `Histories.AppliedConfigsLoad` | pkg/pack/package.go:22-74 | In the same runs, ever after, each such package of manifests loads, and a chart is found in its layer and loads exactly when helm reads a chart from that archive |
| `Histories.DeployIsARun` | cli/deploy.go:43-132 | With each package alone at its target, whatever a deployment may do to registry and cluster, installing included, is what some run of the machine does |
| `Histories.PackingsAreARun` | cli/pack.go:67-82 | Whatever a run of `pack` of good configurations does to the store, document by document, is a run of the machine |
| `Loading.Fetch` | pkg/fetcher/registry.go:49-70 | The layers of the type asked for, at the package's address, or an error |
| `Loading.FetchedExactly` | pkg/fetcher/registry.go:49-90 | From the fields alone: the manifest layers for a package with a manifest path, the chart layers for one without but with a chart path or a repository, all of them and in order, and an error for others or when nothing is there |
| `Loading.ReadAsTheOnlyLayer` | pkg/pack/package.go:30-58 | A package is read as a layer if and only if that is the only one of the type asked for |
| `Loading.KeepLayers` | pkg/fetcher/registry.go:60-64 | Exactly the layers of one media type, in order |
| `Loading.Load` | pkg/pack/package.go:22-74 | Loads exactly when there is one such layer and it unpacks, or helm reads a chart from it: a manifest over its own file system with the unpacked tree, or the files of the chart |
| `Loading.ManifestsLoadExactly` | pkg/pack/package.go:30-50 | A package with a manifest path loads as a tree if and only if its one manifest layer is an archive that unpacks to it |
| `Loading.ChartsLoadExactly` | pkg/pack/package.go:52-70 | A chart loads as some files if and only if helm reads them from its one chart layer, whoever made it, and they make a chart |
| `Reconciling.Live.Sync` | controllers/kevi_controller.go:103-118 | The assumed rule: all objects applied, managed ones not given pruned; a failure has done part of that |
| `Reconciling.LoadObjects` | controllers/kevi_controller.go:72-85 | The objects a package loads, builds and splits to, or an error |
| `Reconciling.ObjectsExactly` | controllers/kevi_controller.go:72-85 | From the fields alone: the objects of the build of the loaded tree with its root, of the rendering of the loaded chart, or none |
| `Reconciling.Reconcile` | controllers/kevi_controller.go:61-94 | Packages are synced in order; it stops exactly at the first that does not load, build, split or sync, and a configuration not found is no error |
| `Reconciling.SyncDeletesExactly` | controllers/kevi_controller.go:106-111 | A sync deletes an object if and only if its mark is `donk` and no object given has its key |
| `Reconciling.SyncLeavesExactly` | controllers/kevi_controller.go:106-111 | A sync leaves at each key it is given the last object with it, and at every other what was there, unless that is marked `donk` |
| `Reconciling.ReconcileLeavesExactly` | controllers/kevi_controller.go:69-91 | Whatever is marked, a reconcile leaves all objects of all packages applied in order, less what is marked `donk` that the last package does not list |
| `Reconciling.SuccessLeavesExactly` | controllers/kevi_controller.go:61-94 | A reconcile that ends without an error has read the objects of every package, and leaves just that |
| `Reconciling.ReconcileDeletesExactly` | controllers/kevi_controller.go:69-91 | What was in the cluster or in a package is gone if and only if it ends up marked `donk` and the last package does not list it; the rest is as applied last |
| `Reconciling.UnmarkedIsNotPruned` | controllers/kevi_controller.go:106-111 | When nothing in the cluster or in a package is marked `donk`, nothing that was in the cluster goes |
| `Reconciling.ReconcileConserves` | controllers/kevi_controller.go:69-91 | Nothing is deleted and every package's objects are there if and only if there is nothing to prune; other objects are unchanged, and later ones stand over earlier |
| `Reconciling.AttemptIsPartial` | controllers/kevi_controller.go:61-94 | However a reconcile ends, a key that no package lists holds what it held or was pruned |
| `Reconciling.RerunConverges` | controllers/kevi_controller.go:69-91 | From any such state a full rerun reaches what one clean run reaches from the starting cluster, whatever is marked |
| `Reconciling.ReconcilesConverge` | controllers/kevi_controller.go:61-94 | After any number of reconciles ending anywhere, one that succeeds leaves what a single clean run from the first cluster would have left |
| `Reconciling.MarkedPackagesPruneEachOther` | controllers/kevi_controller.go:106-111 | A marked object that no later package lists again is gone after a reconcile, in any cluster, unless the last package lists it |
| `EndToEnd.StoredNamesSpareImages` | pkg/pack/manifest.go:77-86 | A configuration whose names all stay in the namespace, as good ones do, has no key that is an image's |
| `EndToEnd.RewrittenImagesAreHeld` | pkg/webhook/mutate.go:47-61 | After a pack of any configuration whose own keys are not the image's, any later packs and a copy, each dotless space-free image at a known path is rewritten to a reference the registry holds, with the store's content when the image is alone at its target; the pack itself stored what was pulled |
| `EndToEnd.AdmittedPodsAreServed` | pkg/webhook/mutate.go:47-61 | For a pod of such images, alone at their targets, every container of the admitted pod asks for what the registry holds as that image, with the content pulled for it |
| `EndToEnd.GoodPackagesOwnTheirKeys` | pkg/pack/manifest.go:53-55 | Each package of a good configuration with unique names has a contained name, an undelimited key, and shares that key with no other package nor the configuration |
| `EndToEnd.PackageIsLocated` | pkg/fetcher/registry.go:72-79 | After a pack and a copy each package that has its key to itself in that way, that nothing was packed over since, and that is alone at its target, is at the reader's address, as it was made |
| `EndToEnd.LoadedPackagesMeanTheSame` | pkg/pack/package.go:22-74 | Such a package is found as one layer; one of manifests loads and builds what it built when packed, its directory's files and root; of a chart helm finds the files it found on disk if and only if it skips none, and then builds the same, from all the directory's files or those of its archive |
| `EndToEnd.ReconciledObjectsAreThePackedOnes` | controllers/kevi_controller.go:72-85 | So a reconcile works on the objects that such packages on disk build to, charts of which nothing is skipped and manifests alike |
| `EndToEnd.ReconciledClusterIsThePackedOne` | controllers/kevi_controller.go:61-94 | When all packages of a configuration are such, a reconcile that ends without an error leaves, of any cluster, the objects they build to on disk applied in order, less those marked `donk` that the last does not list |
| `EndToEnd.PackAndDeploy` | cli/deploy.go:91-129 | Packing a good configuration with unique package names in a good world, and then deploying to a good host, when both succeed: every configuration of the store is applied, and every package and every rewritten image of that configuration which is alone at its target builds in the cluster what it built on disk (where nothing is skipped), or is held as that image |
| `Witnesses.DotLosesPackages` | pkg/fetcher/registry.go:72-79 | The package `a` copied to the host "." is not read there |
| `Witnesses.TheEmptyNameIsLost` | pkg/fetcher/registry.go:72-79 | A package with the empty name copied to `a.b` is not read there |
| `Witnesses.RegistryDelimitsNothing` | pkg/webhook/mutate.go:83-95 | With the target `registry` the webhook does not ask for what the copy wrote of `xy` |
| `Witnesses.ADottedImageMovesAway` | pkg/pack/pack.go:125-133 | `a.b/c.d/xy` is copied to `c.d/xy:latest`, whatever the target |
| `Witnesses.MarkedPackageIsDetected` | cli/deploy.go:101-103 | `app/kevi-x` is a good package name, and deploying takes it for a configuration's |
| `Witnesses.UncleanConfigIsMissed` | pkg/pack/pack.go:73-73 | A configuration named `x/../a` is not seen |

## Left out

- gzip and tar bytes, the YAML and JSON codecs, the kustomize build, helm's ignore rules and rendering: library code, here any functions.
- The network, authentication, the OCI layout, registry clients and the Kubernetes API: here maps, and steps that may fail.
- The internals of the ocil store, oras and the sync engine: here the rules listed under "What is assumed".
- Multi-layer images, configuration blobs and annotations of an artifact: kevi never looks at them.
- Workloads outside the four known paths, such as cron jobs: their images are not found, and no claim covers them.
- `KeviSpecPackage.Images`: described in kevi's README.md:45-47 and never read by `pack`.
- Symbolic links and special files in a local directory: a directory holds directories and files.
- Locating a chart in a repository: `World.charts` says what was located.
- A chart that stands at the root of the file system: the theorems that span packing and loading exclude it.
- main.go's older commands, flags, logging, version output, manager start-up, certificates, building the install image, templates and deep copies: plumbing.
- Package names that climb above the parent of the namespace with "..": where the reader looks for them is not characterised.
- Deploying.Deploy: pinging the registry, connecting to the cluster, unpacking archives and opening the store are flags, because they write to neither registry nor cluster.
- Installing.Install: the order within `rmgr.ApplyAll` is the order of the objects, because the resource manager is library code.
- Discovery.Find: how values other than strings print is a parameter, because the printer is library code.
- Packing.Oci.Pack: encoding a configuration cannot fail here, because the codec is left out.
- Reconciling.Live.Sync: the order in which the engine applies and prunes and its waves are not modelled, because they are the engine's own.
- Charts.Tgz: the archive's modes, owners and times are not modelled.
