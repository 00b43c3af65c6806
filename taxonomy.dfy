/** Tags and categories as the tag and category screens declare them. */
module Taxonomy {

  datatype Tag = Tag(id: int, name: string, description: string)

  datatype Category = Category(id: int, name: string, description: string)
}
