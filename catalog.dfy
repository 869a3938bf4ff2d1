/** One row of the product catalog `leaflink_catalogo.csv`, with the columns
    the chat endpoint reads.  Every field is read-only once loaded. */
module Catalog {

  /** `tipo` is the category ("planta" or "aromaterapia"), `atributo1` the
      scientific name or main attribute, `atributo2` the characteristics and
      `atributo3` the recommended use; an empty `atributo2` or `atributo3` is
      an absent value.  `precioMxn` is the price as the catalog renders it. */
  datatype Row = Row(
    tipo: string,
    nombre: string,
    atributo1: string,
    descripcion: string,
    precioMxn: string,
    stock: int,
    atributo2: string,
    atributo3: string)
}
