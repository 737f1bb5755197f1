/** Where each entity lives in the package tree. */
module Paths {

  const DATA := "data/catalogs/"
  const MODEL := "model/context/"

  function VariablePath(id: string): string { "variables/" + id + ".toml" }

  function ListPath(id: string): string { "lists/" + id + ".toml" }

  function LayerPath(id: string): string { "layers/" + id + ".toml" }

  function CatalogSchemaPath(id: string): string { "model/catalogs/" + id + ".schema.json" }

  function CatalogDataDir(id: string): string { DATA + id + "/" }

  function EntryPath(catalog: string, key: string): string { CatalogDataDir(catalog) + key + ".toml" }

  function ContextSchemaPath(id: string): string { MODEL + id + ".schema.json" }

  function SamplesDir(context: string): string { MODEL + context + "-samples/" }

  function SamplePath(context: string, key: string): string { SamplesDir(context) + key + ".json" }
}
